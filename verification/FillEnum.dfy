/** Enums a fragment declares by name, filled from lists that live elsewhere. */
module FillEnum {
  import opened Basics
  import opened JsonTree

  const FROM := "x-enum-from"
  const ALSO := "x-enum-also"
  const ENUM := "enum"

  /** The lists an enum can be filled from, by name. */
  type Sources = map<string, seq<string>>

  /** A property's value, if the object has it. */
  datatype Property = Absent | Present(value: Json)

  function Lookup(fields: seq<Field>, name: string): Property {
    if fields == [] then Absent
    else if fields[0].name == name then Present(fields[0].value)
    else Lookup(fields[1..], name)
  }

  predicate IsStringList(j: Json) {
    j.Arr? && forall i :: 0 <= i < |j.items| ==> j.items[i].Str?
  }

  function StringsOf(items: seq<Json>): seq<string>
    requires forall i :: 0 <= i < |items| ==> items[i].Str?
  {
    if items == [] then [] else [items[0].s] + StringsOf(items[1..])
  }

  function ToItems(values: seq<string>): (items: seq<Json>)
    ensures |items| == |values| && forall i :: 0 <= i < |items| ==> items[i] == Str(values[i])
  {
    if values == [] then [] else [Str(values[0])] + ToItems(values[1..])
  }

  /** `new Set(values).size === values.length`. */
  predicate NoRepeats(values: seq<string>) {
    |set v | v in values| == |values|
  }

  /** What is written beside the marker; refused when it is not a list of strings. */
  function ListAt(fields: seq<Field>, name: string): Option<seq<string>> {
    match Lookup(fields, name)
    case Absent => Some([])
    case Present(j) => if IsStringList(j) then Some(StringsOf(j.items)) else None
  }

  /** The values appended last; an explicit null counts as none. */
  function AlsoOf(fields: seq<Field>): Option<seq<string>> {
    if Lookup(fields, ALSO) == Present(Null) then Some([]) else ListAt(fields, ALSO)
  }

  /** The source the marker names, if it names a known one. */
  function SourceOf(fields: seq<Field>, sources: Sources): Option<seq<string>> {
    match Lookup(fields, FROM)
    case Present(Str(name)) => if name in sources then Some(sources[name]) else None
    case _ => None
  }

  /** The enum a placeholder asks for, or a refusal. */
  function EnumFor(fields: seq<Field>, sources: Sources): Option<seq<string>> {
    var written, own, also := ListAt(fields, ENUM), SourceOf(fields, sources), AlsoOf(fields);
    var handWritten := Lookup(fields, ENUM) != Absent;
    if written.None? || also.None? then None
    else if !handWritten && (own.None? || own.value == []) then None
    else
      var values := written.value + (if own.Some? then own.value else []) + also.value;
      if NoRepeats(values) then Some(values) else None
  }

  datatype Filled = Filled(value: Json, count: nat) | Refused

  datatype FilledItems = FilledItems(items: seq<Json>, count: nat) | RefusedItems

  datatype FilledFields = FilledFields(fields: seq<Field>, count: nat) | RefusedFields

  /** Every placeholder of a tree filled, and how many there were. */
  function FillIn(j: Json, sources: Sources): Filled
    decreases j
  {
    match j
    case Arr(items) =>
      (match FillItems(items, sources)
       case RefusedItems => Refused
       case FilledItems(done, count) => Filled(Arr(done), count))
    case Obj(fields) =>
      if Lookup(fields, FROM) == Absent then
        match FillFields(fields, sources)
        case RefusedFields => Refused
        case FilledFields(done, count) => Filled(Obj(done), count)
      else
        (match EnumFor(fields, sources)
         case None => Refused
         case Some(values) =>
           match FillMarked(fields, values, sources)
           case RefusedFields => Refused
           case FilledFields(done, count) =>
             Filled(Obj(if Lookup(fields, ENUM) == Absent then done + [Field(ENUM, Arr(ToItems(values)))] else done),
                    count + 1))
    case _ => Filled(j, 0)
  }

  function FillItems(items: seq<Json>, sources: Sources): FilledItems
    decreases items
  {
    if items == [] then FilledItems([], 0)
    else
      match FillIn(items[0], sources)
      case Refused => RefusedItems
      case Filled(first, n) =>
        match FillItems(items[1..], sources)
        case RefusedItems => RefusedItems
        case FilledItems(rest, m) => FilledItems([first] + rest, n + m)
  }

  function FillFields(fields: seq<Field>, sources: Sources): FilledFields
    decreases fields
  {
    if fields == [] then FilledFields([], 0)
    else
      match FillIn(fields[0].value, sources)
      case Refused => RefusedFields
      case Filled(first, n) =>
        match FillFields(fields[1..], sources)
        case RefusedFields => RefusedFields
        case FilledFields(rest, m) => FilledFields([Field(fields[0].name, first)] + rest, n + m)
  }

  /** A placeholder's own fields: the instructions go, the enum takes the values, the rest is filled. */
  function FillMarked(fields: seq<Field>, values: seq<string>, sources: Sources): FilledFields
    decreases fields
  {
    if fields == [] then FilledFields([], 0)
    else if fields[0].name == FROM || fields[0].name == ALSO then FillMarked(fields[1..], values, sources)
    else if fields[0].name == ENUM then
      match FillMarked(fields[1..], values, sources)
      case RefusedFields => RefusedFields
      case FilledFields(rest, m) => FilledFields([Field(ENUM, Arr(ToItems(values)))] + rest, m)
    else
      match FillIn(fields[0].value, sources)
      case Refused => RefusedFields
      case Filled(first, n) =>
        match FillMarked(fields[1..], values, sources)
        case RefusedFields => RefusedFields
        case FilledFields(rest, m) => FilledFields([Field(fields[0].name, first)] + rest, n + m)
  }

  // ---------------------------------------------------------------- no placeholder is left

  predicate HasPlaceholder(j: Json)
    decreases j
  {
    match j
    case Arr(items) => exists i :: 0 <= i < |items| && HasPlaceholder(items[i])
    case Obj(fields) =>
      Lookup(fields, FROM) != Absent || exists i :: 0 <= i < |fields| && HasPlaceholder(fields[i].value)
    case _ => false
  }

  ghost predicate Clean(fields: seq<Field>) {
    forall i :: 0 <= i < |fields| ==> !HasPlaceholder(fields[i].value)
  }

  lemma {:induction false} StringsAreClean(values: seq<string>)
    ensures !HasPlaceholder(Arr(ToItems(values)))
  {
    var items := ToItems(values);
    forall i | 0 <= i < |items| ensures !HasPlaceholder(items[i]) {
      assert items[i] == Str(values[i]);
    }
  }

  lemma {:induction false} LookupSnoc(fields: seq<Field>, last: Field, name: string)
    ensures Lookup(fields + [last], name) ==
            if Lookup(fields, name) == Absent && last.name == name then Present(last.value) else Lookup(fields, name)
  {
    if fields == [] {
      assert [last][1..] == [];
    } else {
      assert (fields + [last])[1..] == fields[1..] + [last];
      LookupSnoc(fields[1..], last, name);
    }
  }

  lemma {:induction false} CleanCons(first: Field, rest: seq<Field>)
    requires !HasPlaceholder(first.value) && Clean(rest)
    ensures Clean([first] + rest)
  {
    hide HasPlaceholder;
    forall i | 0 <= i < |rest| + 1 ensures !HasPlaceholder(([first] + rest)[i].value) {
      assert i > 0 ==> ([first] + rest)[i] == rest[i - 1];
    }
  }

  /** No tree the step returns holds a placeholder. */
  lemma {:induction false} NoPlaceholderIsLeft(j: Json, sources: Sources)
    requires FillIn(j, sources).Filled?
    ensures !HasPlaceholder(FillIn(j, sources).value)
    decreases j
  {
    match j
    case Arr(items) =>
      ItemsAreClean(items, sources);
    case Obj(fields) =>
      if Lookup(fields, FROM) == Absent {
        FieldsAreClean(fields, sources);
      } else {
        var values := EnumFor(fields, sources).value;
        MarkedAreClean(fields, values, sources);
        var done := FillMarked(fields, values, sources).fields;
        StringsAreClean(values);
        var added := Field(ENUM, Arr(ToItems(values)));
        LookupSnoc(done, added, FROM);
        assert forall i :: 0 <= i < |done| ==> (done + [added])[i] == done[i];
      }
    case _ =>
  }

  lemma {:induction false} ItemsAreClean(items: seq<Json>, sources: Sources)
    requires FillItems(items, sources).FilledItems?
    ensures forall i :: 0 <= i < |FillItems(items, sources).items| ==> !HasPlaceholder(FillItems(items, sources).items[i])
    decreases items
  {
    hide HasPlaceholder;
    if items != [] {
      NoPlaceholderIsLeft(items[0], sources);
      ItemsAreClean(items[1..], sources);
    }
  }

  lemma {:induction false} FieldsAreClean(fields: seq<Field>, sources: Sources)
    requires FillFields(fields, sources).FilledFields?
    ensures Clean(FillFields(fields, sources).fields)
    ensures Lookup(fields, FROM) == Absent ==> Lookup(FillFields(fields, sources).fields, FROM) == Absent
    decreases fields
  {
    hide HasPlaceholder;
    if fields != [] {
      NoPlaceholderIsLeft(fields[0].value, sources);
      FieldsAreClean(fields[1..], sources);
      var rest := FillFields(fields[1..], sources).fields;
      var first := Field(fields[0].name, FillIn(fields[0].value, sources).value);
      CleanCons(first, rest);
      assert ([first] + rest)[1..] == rest;
    }
  }

  lemma {:induction false} MarkedAreClean(fields: seq<Field>, values: seq<string>, sources: Sources)
    requires FillMarked(fields, values, sources).FilledFields?
    ensures Clean(FillMarked(fields, values, sources).fields)
    ensures forall f :: f in FillMarked(fields, values, sources).fields ==> f.name != FROM && f.name != ALSO
    ensures Lookup(FillMarked(fields, values, sources).fields, FROM) == Absent
    decreases fields
  {
    hide HasPlaceholder;
    if fields != [] {
      MarkedAreClean(fields[1..], values, sources);
      var rest := FillMarked(fields[1..], values, sources).fields;
      if fields[0].name == ENUM {
        StringsAreClean(values);
        CleanCons(Field(ENUM, Arr(ToItems(values))), rest);
        assert ([Field(ENUM, Arr(ToItems(values)))] + rest)[1..] == rest;
      } else if fields[0].name != FROM && fields[0].name != ALSO {
        NoPlaceholderIsLeft(fields[0].value, sources);
        var first := Field(fields[0].name, FillIn(fields[0].value, sources).value);
        CleanCons(first, rest);
        assert ([first] + rest)[1..] == rest;
      }
    }
  }

  // ---------------------------------------------------------------- what is left alone

  /** A tree with no placeholder comes back as it is, and only such a tree fills none. */
  lemma {:induction false} FillsNoneExactlyWhenClean(j: Json, sources: Sources)
    ensures FillIn(j, sources) == Filled(j, 0) <==> !HasPlaceholder(j)
    ensures FillIn(j, sources).Filled? ==> (FillIn(j, sources).count == 0 <==> !HasPlaceholder(j))
    decreases j
  {
    match j
    case Arr(items) =>
      ItemsUntouched(items, sources);
    case Obj(fields) =>
      FieldsUntouched(fields, sources);
    case _ =>
  }

  lemma {:induction false} ItemsUntouched(items: seq<Json>, sources: Sources)
    ensures FillItems(items, sources) == FilledItems(items, 0) <==>
            forall i :: 0 <= i < |items| ==> !HasPlaceholder(items[i])
    ensures FillItems(items, sources).FilledItems? ==>
              (FillItems(items, sources).count == 0 <==> forall i :: 0 <= i < |items| ==> !HasPlaceholder(items[i]))
    decreases items
  {
    hide HasPlaceholder, FillIn;
    if items != [] {
      FillsNoneExactlyWhenClean(items[0], sources);
      ItemsUntouched(items[1..], sources);
      assert items == [items[0]] + items[1..];
      assert (forall i :: 0 <= i < |items| ==> !HasPlaceholder(items[i])) <==>
             (!HasPlaceholder(items[0]) && forall i :: 0 <= i < |items[1..]| ==> !HasPlaceholder(items[1..][i])) by {
        assert forall i :: 0 <= i < |items| - 1 ==> items[1..][i] == items[i + 1];
        assert forall i :: 0 < i < |items| ==> items[i] == items[1..][i - 1];
      }
    }
  }

  lemma {:induction false} FieldsUntouched(fields: seq<Field>, sources: Sources)
    ensures FillFields(fields, sources) == FilledFields(fields, 0) <==> Clean(fields)
    ensures FillFields(fields, sources).FilledFields? ==> (FillFields(fields, sources).count == 0 <==> Clean(fields))
    decreases fields
  {
    hide HasPlaceholder, FillIn;
    if fields != [] {
      FillsNoneExactlyWhenClean(fields[0].value, sources);
      FieldsUntouched(fields[1..], sources);
      assert fields == [fields[0]] + fields[1..];
      assert Field(fields[0].name, fields[0].value) == fields[0];
      CleanSplit(fields);
    }
  }

  lemma {:induction false} CleanSplit(fields: seq<Field>)
    requires fields != []
    ensures Clean(fields) <==> !HasPlaceholder(fields[0].value) && Clean(fields[1..])
  {
    hide HasPlaceholder;
    assert forall i :: 0 <= i < |fields| - 1 ==> fields[1..][i] == fields[i + 1];
    assert forall i :: 0 < i < |fields| ==> fields[i] == fields[1..][i - 1];
  }

  /** Filling twice is filling once. */
  lemma {:induction false} FillingTwiceIsOnce(j: Json, sources: Sources)
    requires FillIn(j, sources).Filled?
    ensures FillIn(FillIn(j, sources).value, sources) == Filled(FillIn(j, sources).value, 0)
  {
    NoPlaceholderIsLeft(j, sources);
    FillsNoneExactlyWhenClean(FillIn(j, sources).value, sources);
  }

  // ---------------------------------------------------------------- one filled enum

  lemma {:induction false} CardIsDistinct(values: seq<string>)
    ensures NoRepeats(values) <==> Distinct(values)
  {
    if Distinct(values) {
      DistinctCard(values);
    } else {
      var i, j :| 0 <= i < j < |values| && values[i] == values[j];
      var fewer := values[..j] + values[j + 1..];
      CardAtMost(fewer);
      forall v | v in values ensures v in fewer {
        var k :| 0 <= k < |values| && values[k] == v;
        assert k < j ==> fewer[k] == v;
        assert k > j ==> fewer[k - 1] == v;
        assert fewer[i] == values[i];
      }
      assert (set v | v in values) == (set v | v in fewer);
    }
  }

  lemma {:induction false} MarkedEnum(fields: seq<Field>, values: seq<string>, sources: Sources)
    requires FillMarked(fields, values, sources).FilledFields?
    ensures var done := FillMarked(fields, values, sources).fields;
            Lookup(done, ENUM) == if Lookup(fields, ENUM) == Absent then Absent else Present(Arr(ToItems(values)))
  {
    if fields != [] {
      MarkedEnum(fields[1..], values, sources);
      var rest := FillMarked(fields[1..], values, sources).fields;
      if fields[0].name == ENUM {
        assert ([Field(ENUM, Arr(ToItems(values)))] + rest)[1..] == rest;
      } else if fields[0].name != FROM && fields[0].name != ALSO {
        var first := Field(fields[0].name, FillIn(fields[0].value, sources).value);
        assert ([first] + rest)[1..] == rest;
      }
    }
  }

  /** A filled enum holds what was written, then its source's values, then the appended ones, each once. */
  lemma {:induction false} FilledEnumInOrder(fields: seq<Field>, sources: Sources)
    requires Lookup(fields, FROM) != Absent && FillIn(Obj(fields), sources).Filled?
    ensures ListAt(fields, ENUM).Some? && AlsoOf(fields).Some?
    ensures var own := if SourceOf(fields, sources).Some? then SourceOf(fields, sources).value else [];
            var values := ListAt(fields, ENUM).value + own + AlsoOf(fields).value;
            var done := FillIn(Obj(fields), sources).value;
            && done.Obj?
            && Lookup(done.fields, ENUM) == Present(Arr(ToItems(values)))
            && Lookup(done.fields, FROM) == Absent
            && (forall f :: f in done.fields ==> f.name != ALSO)
            && Distinct(values)
            && (values != [] || Lookup(fields, ENUM) != Absent)
  {
    var values := EnumFor(fields, sources).value;
    var done := FillMarked(fields, values, sources).fields;
    CardIsDistinct(values);
    MarkedEnum(fields, values, sources);
    MarkedAreClean(fields, values, sources);
    LookupSnoc(done, Field(ENUM, Arr(ToItems(values))), ENUM);
    LookupSnoc(done, Field(ENUM, Arr(ToItems(values))), FROM);
  }

  // ---------------------------------------------------------------- instructions nobody reads

  /** Some object of the tree still says what to append. */
  predicate HasAlso(j: Json)
    decreases j, 1
  {
    match j
    case Arr(items) => exists i :: 0 <= i < |items| && HasAlso(items[i])
    case Obj(fields) => Lookup(fields, ALSO) != Absent || AnyAlso(fields)
    case _ => false
  }

  predicate AnyAlso(fields: seq<Field>)
    decreases fields, 0
  {
    fields != [] && (HasAlso(fields[0].value) || AnyAlso(fields[1..]))
  }

  /**
   * Some object says what to append but names no source, in the tree or in what a placeholder keeps:
   * all of its fields but the two instructions and the enum.
   */
  predicate HasStray(j: Json)
    decreases j, 1
  {
    match j
    case Arr(items) => exists i :: 0 <= i < |items| && HasStray(items[i])
    case Obj(fields) =>
      if Lookup(fields, FROM) == Absent then Lookup(fields, ALSO) != Absent || AnyStray(fields, false)
      else AnyStray(fields, true)
    case _ => false
  }

  predicate AnyStray(fields: seq<Field>, marked: bool)
    decreases fields, 0
  {
    && fields != []
    && ((HasStray(fields[0].value) && !(marked && fields[0].name in {FROM, ALSO, ENUM})) || AnyStray(fields[1..], marked))
  }

  lemma {:induction false} StringsSayNothing(values: seq<string>)
    ensures !HasAlso(Arr(ToItems(values)))
  {
    var items := ToItems(values);
    forall i | 0 <= i < |items| ensures !HasAlso(items[i]) {
      assert items[i] == Str(values[i]);
    }
  }

  lemma {:induction false} AnyAlsoSnoc(fields: seq<Field>, last: Field)
    ensures AnyAlso(fields + [last]) <==> AnyAlso(fields) || HasAlso(last.value)
  {
    hide HasAlso;
    if fields == [] {
      assert [last][1..] == [];
    } else {
      assert (fields + [last])[1..] == fields[1..] + [last];
      AnyAlsoSnoc(fields[1..], last);
    }
  }

  /**
   * An instruction to append is left in the document exactly when it stood on an object that names no
   * source; all others go with their placeholder.
   */
  lemma {:induction false} OnlyStraysAreLeft(j: Json, sources: Sources)
    requires FillIn(j, sources).Filled?
    ensures HasAlso(FillIn(j, sources).value) <==> HasStray(j)
    decreases j, 1
  {
    match j
    case Arr(items) =>
      StrayItems(items, sources);
    case Obj(fields) =>
      if Lookup(fields, FROM) == Absent {
        StrayFields(fields, sources);
      } else {
        StrayPlaceholder(fields, sources);
      }
    case _ =>
  }

  lemma {:induction false} StrayPlaceholder(fields: seq<Field>, sources: Sources)
    requires Lookup(fields, FROM) != Absent && FillIn(Obj(fields), sources).Filled?
    ensures HasAlso(FillIn(Obj(fields), sources).value) <==> AnyStray(fields, true)
    decreases fields, 1
  {
    hide AnyStray, AnyAlso;
    var values := EnumFor(fields, sources).value;
    var done := FillMarked(fields, values, sources).fields;
    StrayMarked(fields, values, sources);
    var added := Field(ENUM, Arr(ToItems(values)));
    StringsSayNothing(values);
    AnyAlsoSnoc(done, added);
    LookupSnoc(done, added, ALSO);
  }

  lemma {:induction false} StrayItems(items: seq<Json>, sources: Sources)
    requires FillItems(items, sources).FilledItems?
    ensures var done := FillItems(items, sources).items;
            (exists i :: 0 <= i < |done| && HasAlso(done[i])) <==> (exists i :: 0 <= i < |items| && HasStray(items[i]))
    decreases items, 0
  {
    hide HasAlso, HasStray, FillIn;
    if items != [] {
      OnlyStraysAreLeft(items[0], sources);
      StrayItems(items[1..], sources);
      var first, rest := FillIn(items[0], sources).value, FillItems(items[1..], sources).items;
      var done := FillItems(items, sources).items;
      assert done == [first] + rest && items == [items[0]] + items[1..];
      SomeCons(first, rest, (j: Json) => HasAlso(j));
      SomeCons(items[0], items[1..], (j: Json) => HasStray(j));
    }
  }

  lemma {:induction false} SomeCons(first: Json, rest: seq<Json>, p: Json -> bool)
    ensures (exists i :: 0 <= i < |rest| + 1 && p(([first] + rest)[i])) <==>
            (p(first) || exists i :: 0 <= i < |rest| && p(rest[i]))
  {
    var all := [first] + rest;
    assert all[0] == first;
    assert forall i :: 0 <= i < |rest| ==> all[i + 1] == rest[i];
    assert forall i :: 0 < i < |all| ==> all[i] == rest[i - 1];
    if i :| 0 <= i < |rest| && p(rest[i]) {
      assert p(all[i + 1]);
    }
  }

  lemma {:induction false} StrayFields(fields: seq<Field>, sources: Sources)
    requires FillFields(fields, sources).FilledFields?
    ensures AnyAlso(FillFields(fields, sources).fields) <==> AnyStray(fields, false)
    ensures (Lookup(FillFields(fields, sources).fields, ALSO) == Absent) == (Lookup(fields, ALSO) == Absent)
    decreases fields, 0
  {
    hide HasAlso, HasStray, FillIn;
    if fields != [] {
      OnlyStraysAreLeft(fields[0].value, sources);
      StrayFields(fields[1..], sources);
      var first := Field(fields[0].name, FillIn(fields[0].value, sources).value);
      var rest := FillFields(fields[1..], sources).fields;
      assert ([first] + rest)[1..] == rest;
    }
  }

  lemma {:induction false} StrayMarked(fields: seq<Field>, values: seq<string>, sources: Sources)
    requires FillMarked(fields, values, sources).FilledFields?
    ensures AnyAlso(FillMarked(fields, values, sources).fields) <==> AnyStray(fields, true)
    ensures Lookup(FillMarked(fields, values, sources).fields, ALSO) == Absent
    decreases fields, 0
  {
    hide HasAlso, HasStray, FillIn;
    if fields != [] {
      StrayMarked(fields[1..], values, sources);
      var rest := FillMarked(fields[1..], values, sources).fields;
      if fields[0].name == ENUM {
        StringsSayNothing(values);
        assert ([Field(ENUM, Arr(ToItems(values)))] + rest)[1..] == rest;
      } else if fields[0].name != FROM && fields[0].name != ALSO {
        OnlyStraysAreLeft(fields[0].value, sources);
        var first := Field(fields[0].name, FillIn(fields[0].value, sources).value);
        assert ([first] + rest)[1..] == rest;
      }
    }
  }

  /** Values to append, on a schema that names no source, are never read: they stay in the contract. */
  lemma {:induction false} StrayAlsoStays(values: seq<string>, sources: Sources)
    ensures var stray := Obj([Field(ALSO, Arr(ToItems(values)))]);
            FillIn(stray, sources) == Filled(stray, 0)
  {
    var fields := [Field(ALSO, Arr(ToItems(values)))];
    assert Lookup(fields, FROM) == Absent by {
      assert fields[1..] == [];
    }
    StringsAreClean(values);
    FillsNoneExactlyWhenClean(Obj(fields), sources);
  }

  // ---------------------------------------------------------------- the enum a placeholder asks for, spelled out

  ghost predicate DistinctNames(fields: seq<Field>) {
    forall i, j :: 0 <= i < j < |fields| ==> fields[i].name != fields[j].name
  }

  lemma {:induction false} LookupIs(fields: seq<Field>, name: string)
    requires DistinctNames(fields)
    ensures forall v :: Lookup(fields, name) == Present(v) <==> Field(name, v) in fields
  {
    if fields != [] {
      LookupIs(fields[1..], name);
      assert fields == [fields[0]] + fields[1..];
    }
  }

  /** The values are written out: a list of strings under this name, or no such property. */
  ghost predicate Says(fields: seq<Field>, name: string, values: seq<string>) {
    || Field(name, Arr(ToItems(values))) in fields
    || (values == [] && forall v :: Field(name, v) !in fields)
  }

  /** Something else than a list of strings is written there. */
  ghost predicate Misspells(fields: seq<Field>, name: string) {
    exists v :: Field(name, v) in fields && forall values :: v != Arr(ToItems(values))
  }

  /** The marker names this known source; or it names none, and there are no values. */
  ghost predicate Draws(fields: seq<Field>, sources: Sources, values: seq<string>) {
    || (exists source :: Field("x-enum-from", Str(source)) in fields && source in sources && values == sources[source])
    || (values == [] && forall source :: Field("x-enum-from", Str(source)) in fields ==> source !in sources)
  }

  lemma {:induction false} StringListIs(j: Json)
    ensures IsStringList(j) <==> exists values :: j == Arr(ToItems(values))
    ensures IsStringList(j) ==> j == Arr(ToItems(StringsOf(j.items)))
    ensures forall values :: j == Arr(ToItems(values)) ==> IsStringList(j) && StringsOf(j.items) == values
  {
    if IsStringList(j) {
      ItemsOfStrings(j.items);
      assert j == Arr(ToItems(StringsOf(j.items)));
    }
    forall values | j == Arr(ToItems(values)) ensures StringsOf(j.items) == values {
      StringsOfItems(values);
    }
  }

  lemma {:induction false} ItemsOfStrings(items: seq<Json>)
    requires forall i :: 0 <= i < |items| ==> items[i].Str?
    ensures ToItems(StringsOf(items)) == items
  {
    if items != [] {
      ItemsOfStrings(items[1..]);
    }
  }

  lemma {:induction false} StringsOfItems(values: seq<string>)
    ensures StringsOf(ToItems(values)) == values
  {
    if values != [] {
      StringsOfItems(values[1..]);
      assert ToItems(values)[1..] == ToItems(values[1..]);
    }
  }

  /** A property that is a list of strings, or is not there, says its values; any other is refused. */
  lemma {:induction false} ListAtExactly(fields: seq<Field>, name: string)
    requires DistinctNames(fields)
    ensures ListAt(fields, name).None? <==> Misspells(fields, name)
    ensures forall values :: ListAt(fields, name) == Some(values) <==> Says(fields, name, values)
  {
    hide IsStringList, StringsOf, ToItems;
    LookupIs(fields, name);
    match Lookup(fields, name)
    case Absent =>
    case Present(j) =>
      StringListIs(j);
      assert Field(name, j) in fields;
  }

  /**
   * The enum of a placeholder, written as it stands in the contract: what is under `enum`, the values of
   * the source named under `x-enum-from`, what is under `x-enum-also`, each once. It is refused when a list
   * is no list of strings, when a value comes twice, and when there is nothing written and nothing drawn.
   */
  lemma {:induction false} EnumForExactly(fields: seq<Field>, sources: Sources)
    requires DistinctNames(fields)
    ensures Misspells(fields, "enum") || (Misspells(fields, "x-enum-also") && Field("x-enum-also", Null) !in fields) ==>
              EnumFor(fields, sources).None?
    ensures forall written, own, also ::
              Says(fields, "enum", written) && Draws(fields, sources, own) && Appends(fields, also) ==>
                EnumFor(fields, sources) ==
                  if own == [] && NothingWritten(fields) then None
                  else if Distinct(written + own + also) then Some(written + own + also) else None
  {
    hide ListAt, AlsoOf, SourceOf, IsStringList, StringsOf, Says, Misspells, NoRepeats, Draws, Appends, NothingWritten, EnumFor;
    ListAtExactly(fields, "enum");
    AlsoExactly(fields);
    ListAtExactly(fields, "x-enum-also");
    if Misspells(fields, "enum") || (Misspells(fields, "x-enum-also") && Field("x-enum-also", Null) !in fields) {
      EnumForRefuses(fields, sources);
    }
    forall written, own, also | Says(fields, "enum", written) && Draws(fields, sources, own) && Appends(fields, also)
      ensures EnumFor(fields, sources) ==
                if own == [] && NothingWritten(fields) then None
                else if Distinct(written + own + also) then Some(written + own + also) else None
    {
      DrawsExactly(fields, sources, own);
      EnumForTakes(fields, sources, written, own, also);
    }
  }

  ghost predicate NothingWritten(fields: seq<Field>) {
    forall v :: Field("enum", v) !in fields
  }

  /** The values appended last; an explicit null is as good as nothing. */
  ghost predicate Appends(fields: seq<Field>, values: seq<string>) {
    Says(fields, "x-enum-also", values) || (Field("x-enum-also", Null) in fields && values == [])
  }

  lemma {:induction false} AlsoExactly(fields: seq<Field>)
    requires DistinctNames(fields)
    ensures forall values :: Appends(fields, values) ==> AlsoOf(fields) == Some(values)
    ensures Misspells(fields, "x-enum-also") && Field("x-enum-also", Null) !in fields ==> AlsoOf(fields).None?
  {
    hide ListAt, Misspells, IsStringList;
    LookupIs(fields, "x-enum-also");
    ListAtExactly(fields, "x-enum-also");
    forall values | Field("x-enum-also", Null) in fields && Says(fields, "x-enum-also", values) ensures values == [] {
    }
  }

  lemma {:induction false} DrawsExactly(fields: seq<Field>, sources: Sources, own: seq<string>)
    requires DistinctNames(fields) && Draws(fields, sources, own)
    ensures own == if SourceOf(fields, sources).Some? then SourceOf(fields, sources).value else []
  {
    LookupIs(fields, "x-enum-from");
  }

  lemma {:induction false} EnumForRefuses(fields: seq<Field>, sources: Sources)
    requires ListAt(fields, ENUM).None? || AlsoOf(fields).None?
    ensures EnumFor(fields, sources).None?
  {
  }

  lemma {:induction false} EnumForTakes(fields: seq<Field>, sources: Sources, written: seq<string>, own: seq<string>, also: seq<string>)
    requires DistinctNames(fields) && ListAt(fields, ENUM) == Some(written) && AlsoOf(fields) == Some(also)
    requires own == if SourceOf(fields, sources).Some? then SourceOf(fields, sources).value else []
    ensures EnumFor(fields, sources) ==
              if own == [] && NothingWritten(fields) then None
              else if Distinct(written + own + also) then Some(written + own + also) else None
  {
    hide ListAt, AlsoOf, SourceOf, NoRepeats;
    LookupIs(fields, "enum");
    RepeatsExactly(written + own + also);
  }

  lemma {:induction false} RepeatsExactly(values: seq<string>)
    ensures NoRepeats(values) <==> Distinct(values)
  {
    if NoRepeats(values) {
      CardIsDistinct(values);
    } else if Distinct(values) {
      DistinctCard(values);
    }
  }

  // ---------------------------------------------------------------- how many there were

  /** The objects of a tree that name a source, but for those inside what a placeholder gives up. */
  function Placeholders(j: Json): nat
    decreases j, 0
  {
    match j
    case Arr(items) => PlaceholdersAmong(items)
    case Obj(fields) =>
      var marked := Lookup(fields, "x-enum-from") != Absent;
      PlaceholdersUnder(fields, marked) + if marked then 1 else 0
    case _ => 0
  }

  function PlaceholdersAmong(items: seq<Json>): nat
    decreases items, 1
  {
    if items == [] then 0 else Placeholders(items[0]) + PlaceholdersAmong(items[1..])
  }

  function PlaceholdersUnder(fields: seq<Field>, marked: bool): nat
    decreases fields, 1
  {
    if fields == [] then 0
    else
      (if marked && fields[0].name in {"x-enum-from", "x-enum-also", "enum"} then 0 else Placeholders(fields[0].value))
      + PlaceholdersUnder(fields[1..], marked)
  }

  /** The number the step reports is the number of placeholders it filled. */
  lemma {:induction false} CountsPlaceholders(j: Json, sources: Sources)
    ensures FillIn(j, sources).Filled? ==> FillIn(j, sources).count == Placeholders(j)
    decreases j, 2
  {
    match j
    case Arr(items) => CountsAmong(items, sources);
    case Obj(fields) =>
      CountsUnder(fields, sources);
      if EnumFor(fields, sources).Some? {
        CountsMarked(fields, EnumFor(fields, sources).value, sources);
      }
      hide EnumFor, Lookup, FillFields, FillMarked, PlaceholdersUnder;
    case _ =>
  }

  lemma {:induction false} CountsAmong(items: seq<Json>, sources: Sources)
    ensures FillItems(items, sources).FilledItems? ==> FillItems(items, sources).count == PlaceholdersAmong(items)
    decreases items, 1
  {
    if items != [] {
      CountsPlaceholders(items[0], sources);
      CountsAmong(items[1..], sources);
    }
    hide FillIn, Placeholders;
  }

  lemma {:induction false} CountsUnder(fields: seq<Field>, sources: Sources)
    ensures FillFields(fields, sources).FilledFields? ==> FillFields(fields, sources).count == PlaceholdersUnder(fields, false)
    decreases fields, 1
  {
    if fields != [] {
      CountsPlaceholders(fields[0].value, sources);
      CountsUnder(fields[1..], sources);
    }
    hide FillIn, Placeholders;
  }

  lemma {:induction false} CountsMarked(fields: seq<Field>, values: seq<string>, sources: Sources)
    ensures FillMarked(fields, values, sources).FilledFields? ==>
              FillMarked(fields, values, sources).count == PlaceholdersUnder(fields, true)
    decreases fields, 1
  {
    if fields != [] {
      CountsPlaceholders(fields[0].value, sources);
      CountsMarked(fields[1..], values, sources);
    }
    hide FillIn, Placeholders;
  }
}
