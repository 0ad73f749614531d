/** The tolerant reader: it accepts what the strict one accepts once undeclared keys are dropped. */
module ZodTolerance {
  import opened Basics
  import opened JsonTree
  import opened ZodCompiler

  // ---------------------------------------------------------------- tolerant terms

  /** The same term with no object strict. */
  function Loosen(z: Zod): Zod
    decreases z, 0
  {
    match z
    case ZUnion(members) => ZUnion(LoosenAll(members))
    case ZDiscriminated(key, members) => ZDiscriminated(key, LoosenAll(members))
    case ZArray(item) => ZArray(Loosen(item))
    case ZRecord(value) => ZRecord(Loosen(value))
    case ZObject(shape, _) => ZObject(LoosenShape(shape), false)
    case _ => z
  }

  function LoosenAll(zs: seq<Zod>): (r: seq<Zod>)
    ensures |r| == |zs| && forall i :: 0 <= i < |zs| ==> r[i] == Loosen(zs[i])
    decreases zs, 1
  {
    if zs == [] then [] else [Loosen(zs[0])] + LoosenAll(zs[1..])
  }

  function LoosenShape(shape: seq<ZField>): (r: seq<ZField>)
    ensures |r| == |shape|
    ensures forall k :: 0 <= k < |shape| ==> r[k] == ZField(shape[k].name, Loosen(shape[k].zod), shape[k].optional)
    decreases shape, 1
  {
    if shape == [] then []
    else [ZField(shape[0].name, Loosen(shape[0].zod), shape[0].optional)] + LoosenShape(shape[1..])
  }

  /** Compiling tolerantly is compiling strictly and loosening the result; both refuse the same nodes. */
  lemma {:induction false} TolerantIsLoosened(s: Schema)
    ensures Compile(s, true).Success? <==> Compile(s, false).Success?
    ensures Compile(s, false).Success? ==> Compile(s, true).value == Loosen(Compile(s, false).value)
    decreases s, 0
  {
    hide Compile, Loosen;
    if s.ref == "" && s.values.None? && s.oneOf.Listed? {
      TolerantAll(s.oneOf.value);
      UnionLoosened(s);
    } else if s.ref == "" && s.values.None? && s.typ == Some("array") && s.items.Items? {
      TolerantIsLoosened(s.items.value);
      ArrayLoosened(s);
    } else if s.ref == "" && s.values.None? && s.typ == Some("object") && s.properties.Properties? {
      TolerantShape(s.properties.value, s.required);
      ObjectLoosened(s);
    } else if s.ref == "" && s.values.None? && s.typ == Some("object") && s.extra.Typed? {
      TolerantIsLoosened(s.extra.schema);
      RecordLoosened(s);
    } else {
      LeafLoosened(s);
    }
  }

  /** What compiling tolerantly must make of one node. */
  ghost predicate IsLoosening(s: Schema) {
    && (Compile(s, true).Success? <==> Compile(s, false).Success?)
    && (Compile(s, false).Success? ==> Compile(s, true).value == Loosen(Compile(s, false).value))
  }

  lemma {:induction false} UnionLoosened(s: Schema)
    requires s.ref == "" && s.values.None? && s.oneOf.Listed?
    requires CompileAll(s.oneOf.value, true).Success? <==> CompileAll(s.oneOf.value, false).Success?
    requires CompileAll(s.oneOf.value, false).Success? ==>
      CompileAll(s.oneOf.value, true).value == LoosenAll(CompileAll(s.oneOf.value, false).value)
    ensures IsLoosening(s)
  {
    hide CompileAll, CompileShape, LoosenAll, LoosenShape;
  }

  lemma {:induction false} ArrayLoosened(s: Schema)
    requires s.ref == "" && s.values.None? && s.oneOf.Absent? && s.typ == Some("array") && s.items.Items?
    requires IsLoosening(s.items.value)
    ensures IsLoosening(s)
  {
    hide CompileAll, CompileShape, LoosenAll, LoosenShape;
  }

  lemma {:induction false} ObjectLoosened(s: Schema)
    requires s.ref == "" && s.values.None? && s.oneOf.Absent? && s.typ == Some("object") && s.properties.Properties?
    requires CompileShape(s.properties.value, s.required, true).Success? <==>
             CompileShape(s.properties.value, s.required, false).Success?
    requires CompileShape(s.properties.value, s.required, false).Success? ==>
      CompileShape(s.properties.value, s.required, true).value ==
      LoosenShape(CompileShape(s.properties.value, s.required, false).value)
    ensures IsLoosening(s)
  {
    hide CompileAll, CompileShape, LoosenAll, LoosenShape;
  }

  lemma {:induction false} RecordLoosened(s: Schema)
    requires s.ref == "" && s.values.None? && s.oneOf.Absent? && s.typ == Some("object") && s.properties.NoProperties?
    requires s.extra.Typed? && IsLoosening(s.extra.schema)
    ensures IsLoosening(s)
  {
    hide CompileAll, CompileShape, LoosenAll, LoosenShape;
  }

  /** A node that leads no further compiles the same either way. */
  lemma {:induction false} LeafLoosened(s: Schema)
    requires s.ref != "" || s.values.Some? ||
             !(s.oneOf.Listed? || (s.typ == Some("array") && s.items.Items?)
               || (s.typ == Some("object") && (s.properties.Properties? || s.extra.Typed?)))
    ensures IsLoosening(s)
  {
    hide CompileAll, CompileShape, LoosenAll, LoosenShape, ConstName, LastSegment;
  }

  lemma {:induction false} TolerantAll(ss: seq<Schema>)
    ensures CompileAll(ss, true).Success? <==> CompileAll(ss, false).Success?
    ensures CompileAll(ss, false).Success? ==> CompileAll(ss, true).value == LoosenAll(CompileAll(ss, false).value)
    decreases ss, 1
  {
    hide Compile, Loosen;
    if ss != [] {
      TolerantIsLoosened(ss[0]);
      TolerantAll(ss[1..]);
    }
  }

  lemma {:induction false} TolerantShape(ps: seq<Property>, required: seq<string>)
    ensures CompileShape(ps, required, true).Success? <==> CompileShape(ps, required, false).Success?
    ensures CompileShape(ps, required, false).Success? ==>
            CompileShape(ps, required, true).value == LoosenShape(CompileShape(ps, required, false).value)
    decreases ps, 1
  {
    hide Compile, Loosen;
    if ps != [] {
      TolerantIsLoosened(ps[0].schema);
      TolerantShape(ps[1..], required);
    }
  }

  // ---------------------------------------------------------------- dropping undeclared keys

  /** A term whose object shapes name each key once, as the properties of a JavaScript object do. */
  ghost predicate WellShaped(z: Zod) {
    match z
    case ZUnion(members) => forall i :: 0 <= i < |members| ==> WellShaped(members[i])
    case ZDiscriminated(_, members) => forall i :: 0 <= i < |members| ==> WellShaped(members[i])
    case ZArray(item) => WellShaped(item)
    case ZRecord(value) => WellShaped(value)
    case ZObject(shape, _) =>
      && (forall i, j :: 0 <= i < j < |shape| ==> shape[i].name != shape[j].name)
      && forall k :: 0 <= k < |shape| ==> WellShaped(shape[k].zod)
    case _ => true
  }

  /** The value without the keys the term's inline objects do not declare; other constants are not looked into. */
  function Drop(prog: seq<ZConst>, n: nat, z: Zod, v: Json): Json
    requires n <= |prog|
    decreases z, 0
  {
    match z
    case ZUnion(members) => DropTaken(prog, n, members, v)
    case ZDiscriminated(key, members) => DropPicked(prog, n, members, key, v)
    case ZArray(item) =>
      if v.Arr? then Arr(seq(|v.items|, i requires 0 <= i < |v.items| => Drop(prog, n, item, v.items[i]))) else v
    case ZRecord(value) =>
      if v.Obj? then
        Obj(seq(|v.fields|, i requires 0 <= i < |v.fields| =>
              Field(v.fields[i].name, Drop(prog, n, value, v.fields[i].value))))
      else v
    case ZObject(shape, _) => if v.Obj? then Obj(DropFields(prog, n, shape, v.fields)) else v
    case _ => v
  }

  /** A union drops what the first member that then takes the value drops. */
  function DropTaken(prog: seq<ZConst>, n: nat, members: seq<Zod>, v: Json): Json
    requires n <= |prog|
    decreases members, 1
  {
    if members == [] then v
    else
      var d := Drop(prog, n, members[0], v);
      if ZodAccepts(prog, n, members[0], d) then d else DropTaken(prog, n, members[1..], v)
  }

  /** A discriminated union drops what the member its key leads to drops. */
  function DropPicked(prog: seq<ZConst>, n: nat, members: seq<Zod>, key: string, v: Json): Json
    requires n <= |prog|
    decreases members, 1
  {
    if members == [] then v
    else if HasKey(v, key, KeyValues(prog, n, members[0], key)) then Drop(prog, n, members[0], v)
    else DropPicked(prog, n, members[1..], key, v)
  }

  function DropFields(prog: seq<ZConst>, n: nat, shape: seq<ZField>, fields: seq<Field>): seq<Field>
    requires n <= |prog|
    decreases shape, 2, fields
  {
    if fields == [] then []
    else
      var rest := DropFields(prog, n, shape, fields[1..]);
      if Declares(shape, fields[0].name)
      then [Field(fields[0].name, DropValue(prog, n, shape, fields[0].name, fields[0].value))] + rest
      else rest
  }

  function DropValue(prog: seq<ZConst>, n: nat, shape: seq<ZField>, name: string, v: Json): Json
    requires n <= |prog|
    decreases shape, 1
  {
    if shape == [] then v
    else if shape[0].name == name then Drop(prog, n, shape[0].zod, v)
    else DropValue(prog, n, shape[1..], name, v)
  }

  // ---------------------------------------------------------------- fields, one by one

  /** The field's value suits the key its shape declares, if it declares it. */
  ghost predicate FieldSuits(prog: seq<ZConst>, n: nat, shape: seq<ZField>, f: Field)
    requires n <= |prog|
  {
    forall k :: 0 <= k < |shape| && shape[k].name == f.name ==> ZodAccepts(prog, n, shape[k].zod, f.value)
  }

  ghost predicate Complete(shape: seq<ZField>, fields: seq<Field>) {
    forall k :: 0 <= k < |shape| && !Present(fields, shape[k].name) ==> shape[k].optional
  }

  lemma {:induction false} ObjectParts(prog: seq<ZConst>, n: nat, shape: seq<ZField>, strict: bool, fields: seq<Field>)
    requires n <= |prog|
    ensures ZodAccepts(prog, n, ZObject(shape, strict), Obj(fields)) <==>
            && Complete(shape, fields)
            && (forall f :: f in fields ==> FieldSuits(prog, n, shape, f))
            && (strict ==> forall f :: f in fields ==> Declares(shape, f.name))
  {
    var z, v := ZObject(shape, strict), Obj(fields);
    if ZodAccepts(prog, n, z, v) {
      forall f | f in fields ensures FieldSuits(prog, n, shape, f) && (strict ==> Declares(shape, f.name)) {
        var i :| 0 <= i < |fields| && fields[i] == f;
        assert v.fields[i].name == f.name;
      }
    }
    if (forall f :: f in fields ==> FieldSuits(prog, n, shape, f)) {
      forall k, i | 0 <= k < |shape| && 0 <= i < |fields| && fields[i].name == shape[k].name
        ensures ZodAccepts(prog, n, shape[k].zod, v.fields[i].value)
      {
        assert FieldSuits(prog, n, shape, fields[i]);
      }
    }
  }

  lemma {:induction false} DroppedPresence(prog: seq<ZConst>, n: nat, shape: seq<ZField>, fields: seq<Field>, name: string)
    requires n <= |prog|
    ensures Present(DropFields(prog, n, shape, fields), name) <==> Present(fields, name) && Declares(shape, name)
    ensures forall f :: f in DropFields(prog, n, shape, fields) ==> Declares(shape, f.name)
    decreases fields
  {
    hide Declares, DropValue;
    if fields != [] {
      DroppedPresence(prog, n, shape, fields[1..], name);
      var rest := DropFields(prog, n, shape, fields[1..]);
      var all := DropFields(prog, n, shape, fields);
      assert forall f :: f in fields <==> f == fields[0] || f in fields[1..];
      if Declares(shape, fields[0].name) {
        assert all[0] in all && all[1..] == rest;
        assert forall f :: f in all <==> f == all[0] || f in rest;
      }
    }
  }

  lemma {:induction false} DroppedComplete(prog: seq<ZConst>, n: nat, shape: seq<ZField>, loose: seq<ZField>, fields: seq<Field>)
    requires n <= |prog| && loose == LoosenShape(shape)
    ensures Complete(loose, fields) <==> Complete(shape, DropFields(prog, n, shape, fields))
  {
    hide Present, DropFields, LoosenShape, Loosen;
    forall k | 0 <= k < |shape|
      ensures Present(DropFields(prog, n, shape, fields), shape[k].name) <==> Present(fields, shape[k].name)
    {
      DroppedPresence(prog, n, shape, fields, shape[k].name);
    }
  }

  lemma {:induction false} ValueOfKey(prog: seq<ZConst>, n: nat, shape: seq<ZField>, k: nat, v: Json)
    requires n <= |prog| && k < |shape|
    requires forall i, j :: 0 <= i < j < |shape| ==> shape[i].name != shape[j].name
    ensures DropValue(prog, n, shape, shape[k].name, v) == Drop(prog, n, shape[k].zod, v)
    decreases shape
  {
    hide Drop;
    if k > 0 {
      assert shape[1..][k - 1] == shape[k];
      ValueOfKey(prog, n, shape[1..], k - 1, v);
    }
  }

  // ---------------------------------------------------------------- unions, member by member

  lemma {:induction false} TakenIsAccepted(prog: seq<ZConst>, n: nat, members: seq<Zod>, v: Json, i: nat)
    requires n <= |prog| && i < |members|
    requires ZodAccepts(prog, n, members[i], Drop(prog, n, members[i], v))
    ensures exists j :: 0 <= j < |members| && ZodAccepts(prog, n, members[j], DropTaken(prog, n, members, v))
    decreases members
  {
    hide Drop, ZodAccepts;
    if !ZodAccepts(prog, n, members[0], Drop(prog, n, members[0], v)) {
      assert members[1..][i - 1] == members[i];
      TakenIsAccepted(prog, n, members[1..], v, i - 1);
      var j :| 0 <= j < |members[1..]| && ZodAccepts(prog, n, members[1..][j], DropTaken(prog, n, members[1..], v));
      assert members[1..][j] == members[j + 1];
    }
  }

  lemma {:induction false} NobodyTakes(prog: seq<ZConst>, n: nat, members: seq<Zod>, v: Json)
    requires n <= |prog|
    requires forall i :: 0 <= i < |members| ==> !ZodAccepts(prog, n, members[i], Drop(prog, n, members[i], v))
    ensures DropTaken(prog, n, members, v) == v
    decreases members
  {
    hide Drop, ZodAccepts;
    if members != [] {
      forall i | 0 <= i < |members[1..]|
        ensures !ZodAccepts(prog, n, members[1..][i], Drop(prog, n, members[1..][i], v))
      {
        assert members[1..][i] == members[i + 1];
      }
      NobodyTakes(prog, n, members[1..], v);
    }
  }

  lemma {:induction false} PickedIsDropped(prog: seq<ZConst>, n: nat, members: seq<Zod>, key: string, v: Json, i: nat)
    requires n <= |prog| && i < |members| && Picks(prog, n, members, key, v, i)
    ensures DropPicked(prog, n, members, key, v) == Drop(prog, n, members[i], v)
    decreases members
  {
    hide Drop, HasKey, KeyValues;
    if i > 0 {
      assert members[1..][i - 1] == members[i];
      forall j | 0 <= j < i - 1 ensures !HasKey(v, key, KeyValues(prog, n, members[1..][j], key)) {
        assert members[1..][j] == members[j + 1];
      }
      PickedIsDropped(prog, n, members[1..], key, v, i - 1);
    }
  }

  lemma {:induction false} NobodyPicked(prog: seq<ZConst>, n: nat, members: seq<Zod>, key: string, v: Json)
    requires n <= |prog|
    requires forall i :: 0 <= i < |members| ==> !HasKey(v, key, KeyValues(prog, n, members[i], key))
    ensures DropPicked(prog, n, members, key, v) == v
    decreases members
  {
    hide Drop, HasKey, KeyValues;
    if members != [] {
      forall i | 0 <= i < |members[1..]| ensures !HasKey(v, key, KeyValues(prog, n, members[1..][i], key)) {
        assert members[1..][i] == members[i + 1];
      }
      NobodyPicked(prog, n, members[1..], key, v);
    }
  }

  lemma {:induction false} KeyIsAnEnum(shape: seq<ZField>, key: string) returns (k: nat)
    requires ShapeValues(shape, key) != []
    ensures k < |shape| && shape[k].name == key && shape[k].zod.ZEnum?
  {
    if shape[0].name == key && shape[0].zod.ZEnum? {
      k := 0;
    } else {
      k := KeyIsAnEnum(shape[1..], key);
      k := k + 1;
    }
  }

  lemma {:induction false} KeyFieldsStay(prog: seq<ZConst>, n: nat, shape: seq<ZField>, key: string, fields: seq<Field>, f: Field)
    requires n <= |prog| && f.name == key && Declares(shape, key)
    requires forall v :: DropValue(prog, n, shape, key, v) == v
    ensures f in DropFields(prog, n, shape, fields) <==> f in fields
    decreases fields
  {
    hide DropValue, Declares;
    if fields != [] {
      KeyFieldsStay(prog, n, shape, key, fields[1..], f);
      var rest := DropFields(prog, n, shape, fields[1..]);
      var all := DropFields(prog, n, shape, fields);
      assert f in fields <==> f == fields[0] || f in fields[1..];
      if Declares(shape, fields[0].name) {
        assert f in all <==> f == all[0] || f in rest;
      }
    }
  }

  /** Dropping for a keyed member leaves the key's own value alone. */
  lemma {:induction false} DropKeepsKey(prog: seq<ZConst>, n: nat, z: Zod, key: string, v: Json)
    requires n <= |prog| && WellShaped(z) && HasKey(v, key, KeyValues(prog, n, z, key))
    ensures forall values :: HasKey(Drop(prog, n, z, v), key, values) <==> HasKey(v, key, values)
  {
    hide DropFields, DropTaken, DropPicked, FindConst, ShapeValues;
    if z.ZObject? {
      var k := KeyIsAnEnum(z.shape, key);
      forall w ensures DropValue(prog, n, z.shape, key, w) == w {
        ValueOfKey(prog, n, z.shape, k, w);
      }
      forall f: Field | f.name == key ensures f in DropFields(prog, n, z.shape, v.fields) <==> f in v.fields {
        KeyFieldsStay(prog, n, z.shape, key, v.fields, f);
      }
      hide DropValue;
    }
  }

  lemma {:induction false} PickedStays(prog: seq<ZConst>, n: nat, members: seq<Zod>, key: string, v: Json, i: nat)
    requires n <= |prog| && i < |members| && WellShaped(members[i]) && Picks(prog, n, members, key, v, i)
    ensures DropPicked(prog, n, members, key, v) == Drop(prog, n, members[i], v)
    ensures Picks(prog, n, members, key, Drop(prog, n, members[i], v), i)
  {
    hide Drop, HasKey, KeyValues, DropPicked, WellShaped;
    PickedIsDropped(prog, n, members, key, v, i);
    DropKeepsKey(prog, n, members[i], key, v);
  }

  // ---------------------------------------------------------------- main results

  /** Dropping undeclared keys never turns an accepted value away. */
  lemma {:induction false} DroppingKeepsAcceptance(prog: seq<ZConst>, n: nat, z: Zod, v: Json)
    requires n <= |prog| && WellShaped(z) && ZodAccepts(prog, n, z, v)
    ensures ZodAccepts(prog, n, z, Drop(prog, n, z, v))
    decreases z
  {
    hide DropFields, DropTaken, DropPicked, HasKey, KeyValues;
    match z
    case ZUnion(members) =>
      var i :| 0 <= i < |members| && ZodAccepts(prog, n, members[i], v);
      DroppingKeepsAcceptance(prog, n, members[i], v);
      TakenIsAccepted(prog, n, members, v, i);
    case ZDiscriminated(key, members) =>
      var i :| 0 <= i < |members| && Picks(prog, n, members, key, v, i) && ZodAccepts(prog, n, members[i], v);
      DroppingKeepsAcceptance(prog, n, members[i], v);
      PickedStays(prog, n, members, key, v, i);
    case ZArray(item) =>
      forall i | 0 <= i < |v.items| ensures ZodAccepts(prog, n, item, Drop(prog, n, item, v.items[i])) {
        DroppingKeepsAcceptance(prog, n, item, v.items[i]);
      }
    case ZRecord(value) =>
      forall i | 0 <= i < |v.fields| ensures ZodAccepts(prog, n, value, Drop(prog, n, value, v.fields[i].value)) {
        DroppingKeepsAcceptance(prog, n, value, v.fields[i].value);
      }
    case ZObject(shape, strict) =>
      DroppedObjectAccepted(prog, n, shape, strict, v.fields);
    case _ =>
  }

  lemma {:induction false} DroppedObjectAccepted(prog: seq<ZConst>, n: nat, shape: seq<ZField>, strict: bool, fields: seq<Field>)
    requires n <= |prog| && WellShaped(ZObject(shape, strict))
    requires ZodAccepts(prog, n, ZObject(shape, strict), Obj(fields))
    ensures ZodAccepts(prog, n, ZObject(shape, strict), Obj(DropFields(prog, n, shape, fields)))
    decreases shape, 2
  {
    hide DropFields, ZodAccepts, FieldSuits, Declares;
    ObjectParts(prog, n, shape, strict, fields);
    ObjectParts(prog, n, shape, strict, DropFields(prog, n, shape, fields));
    DroppedComplete(prog, n, shape, LoosenShape(shape), fields);
    DroppedPresence(prog, n, shape, fields, "");
    DroppedFieldsSuit(prog, n, shape, fields);
  }

  lemma {:induction false} DroppedFieldsSuit(prog: seq<ZConst>, n: nat, shape: seq<ZField>, fields: seq<Field>)
    requires n <= |prog| && WellShaped(ZObject(shape, false))
    requires forall f :: f in fields ==> FieldSuits(prog, n, shape, f)
    ensures forall f :: f in DropFields(prog, n, shape, fields) ==> FieldSuits(prog, n, shape, f)
    decreases shape, 1, fields
  {
    hide ZodAccepts, Drop, DropValue;
    if fields != [] {
      DroppedFieldsSuit(prog, n, shape, fields[1..]);
      var name, v := fields[0].name, fields[0].value;
      if Declares(shape, name) {
        var k :| 0 <= k < |shape| && shape[k].name == name;
        assert FieldSuits(prog, n, shape, fields[0]);
        DroppingKeepsAcceptance(prog, n, shape[k].zod, v);
        ValueOfKey(prog, n, shape, k, v);
        assert FieldSuits(prog, n, shape, Field(name, DropValue(prog, n, shape, name, v)));
      }
    }
  }

  lemma {:induction false} LooseKeyValues(prog: seq<ZConst>, n: nat, z: Zod, key: string)
    requires n <= |prog|
    ensures KeyValues(prog, n, Loosen(z), key) == KeyValues(prog, n, z, key)
  {
    if z.ZObject? {
      LooseShapeValues(z.shape, key);
    }
  }

  lemma {:induction false} LooseShapeValues(shape: seq<ZField>, key: string)
    ensures ShapeValues(LoosenShape(shape), key) == ShapeValues(shape, key)
  {
    if shape != [] {
      LooseShapeValues(shape[1..], key);
    }
  }

  lemma {:induction false} LoosePicks(prog: seq<ZConst>, n: nat, members: seq<Zod>, key: string, v: Json, i: nat)
    requires n <= |prog| && i < |members|
    ensures Picks(prog, n, LoosenAll(members), key, v, i) <==> Picks(prog, n, members, key, v, i)
  {
    hide HasKey, KeyValues, Loosen, LoosenAll;
    forall j | 0 <= j <= i
      ensures KeyValues(prog, n, LoosenAll(members)[j], key) == KeyValues(prog, n, members[j], key)
    {
      LooseKeyValues(prog, n, members[j], key);
    }
  }

  /**
   * The tolerant reader accepts a value exactly when the strict one accepts it after its undeclared
   * keys are dropped, inline objects within inline objects included.
   */
  lemma {:induction false} TolerantIsStrictAfterDropping(prog: seq<ZConst>, n: nat, z: Zod, v: Json)
    requires n <= |prog| && WellShaped(z)
    ensures ZodAccepts(prog, n, Loosen(z), v) <==> ZodAccepts(prog, n, z, Drop(prog, n, z, v))
    decreases z
  {
    hide DropFields, DropTaken, DropPicked, LoosenAll, LoosenShape, HasKey, KeyValues;
    match z
    case ZUnion(members) =>
      forall i | 0 <= i < |members|
        ensures ZodAccepts(prog, n, Loosen(members[i]), v) <==>
                ZodAccepts(prog, n, members[i], Drop(prog, n, members[i], v))
      {
        TolerantIsStrictAfterDropping(prog, n, members[i], v);
      }
      TolerantUnion(prog, n, members, v);
    case ZDiscriminated(key, members) =>
      forall i | 0 <= i < |members|
        ensures ZodAccepts(prog, n, Loosen(members[i]), v) <==>
                ZodAccepts(prog, n, members[i], Drop(prog, n, members[i], v))
      {
        TolerantIsStrictAfterDropping(prog, n, members[i], v);
      }
      TolerantPick(prog, n, members, key, v);
    case ZArray(item) =>
      if v.Arr? {
        forall i | 0 <= i < |v.items|
          ensures ZodAccepts(prog, n, Loosen(item), v.items[i]) <==>
                  ZodAccepts(prog, n, item, Drop(prog, n, item, v.items[i]))
        {
          TolerantIsStrictAfterDropping(prog, n, item, v.items[i]);
        }
        TolerantItems(prog, n, item, v.items);
      }
    case ZRecord(value) =>
      if v.Obj? {
        forall i | 0 <= i < |v.fields|
          ensures ZodAccepts(prog, n, Loosen(value), v.fields[i].value) <==>
                  ZodAccepts(prog, n, value, Drop(prog, n, value, v.fields[i].value))
        {
          TolerantIsStrictAfterDropping(prog, n, value, v.fields[i].value);
        }
        TolerantValues(prog, n, value, v.fields);
      }
    case ZObject(shape, strict) =>
      if v.Obj? {
        TolerantObject(prog, n, shape, strict, v.fields);
      }
    case _ =>
  }

  lemma {:induction false} TolerantItems(prog: seq<ZConst>, n: nat, item: Zod, items: seq<Json>)
    requires n <= |prog|
    requires forall i :: 0 <= i < |items| ==>
      (ZodAccepts(prog, n, Loosen(item), items[i]) <==> ZodAccepts(prog, n, item, Drop(prog, n, item, items[i])))
    ensures ZodAccepts(prog, n, ZArray(Loosen(item)), Arr(items)) <==>
            ZodAccepts(prog, n, ZArray(item), Drop(prog, n, ZArray(item), Arr(items)))
  {
    hide Loosen;
    var kept := Drop(prog, n, ZArray(item), Arr(items));
    assert forall i :: 0 <= i < |items| ==> kept.items[i] == Drop(prog, n, item, items[i]);
    hide Drop;
  }

  lemma {:induction false} TolerantValues(prog: seq<ZConst>, n: nat, value: Zod, fields: seq<Field>)
    requires n <= |prog|
    requires forall i :: 0 <= i < |fields| ==>
      (ZodAccepts(prog, n, Loosen(value), fields[i].value) <==> ZodAccepts(prog, n, value, Drop(prog, n, value, fields[i].value)))
    ensures ZodAccepts(prog, n, ZRecord(Loosen(value)), Obj(fields)) <==>
            ZodAccepts(prog, n, ZRecord(value), Drop(prog, n, ZRecord(value), Obj(fields)))
  {
    hide Loosen;
    var kept := Drop(prog, n, ZRecord(value), Obj(fields));
    assert forall i :: 0 <= i < |fields| ==> kept.fields[i].value == Drop(prog, n, value, fields[i].value);
    hide Drop;
  }

  lemma {:induction false} TolerantUnion(prog: seq<ZConst>, n: nat, members: seq<Zod>, v: Json)
    requires n <= |prog| && WellShaped(ZUnion(members))
    requires forall i :: 0 <= i < |members| ==>
      (ZodAccepts(prog, n, Loosen(members[i]), v) <==> ZodAccepts(prog, n, members[i], Drop(prog, n, members[i], v)))
    ensures ZodAccepts(prog, n, ZUnion(LoosenAll(members)), v) <==>
            ZodAccepts(prog, n, ZUnion(members), DropTaken(prog, n, members, v))
  {
    hide Drop, DropTaken, Loosen, LoosenAll;
    var loose := LoosenAll(members);
    if i :| 0 <= i < |members| && ZodAccepts(prog, n, members[i], Drop(prog, n, members[i], v)) {
      assert ZodAccepts(prog, n, loose[i], v);
      TakenIsAccepted(prog, n, members, v, i);
    } else {
      NobodyTakes(prog, n, members, v);
      forall i | 0 <= i < |members| ensures !ZodAccepts(prog, n, members[i], v) {
        if ZodAccepts(prog, n, members[i], v) {
          DroppingKeepsAcceptance(prog, n, members[i], v);
        }
      }
    }
  }

  lemma {:induction false} TolerantPick(prog: seq<ZConst>, n: nat, members: seq<Zod>, key: string, v: Json)
    requires n <= |prog| && WellShaped(ZDiscriminated(key, members))
    requires forall i :: 0 <= i < |members| ==>
      (ZodAccepts(prog, n, Loosen(members[i]), v) <==> ZodAccepts(prog, n, members[i], Drop(prog, n, members[i], v)))
    ensures ZodAccepts(prog, n, ZDiscriminated(key, LoosenAll(members)), v) <==>
            ZodAccepts(prog, n, ZDiscriminated(key, members), DropPicked(prog, n, members, key, v))
  {
    hide Drop, DropPicked, Loosen, LoosenAll, HasKey, KeyValues, Picks;
    var loose := LoosenAll(members);
    forall i | 0 <= i < |members| ensures Picks(prog, n, loose, key, v, i) <==> Picks(prog, n, members, key, v, i) {
      LoosePicks(prog, n, members, key, v, i);
    }
    if i :| 0 <= i < |members| && Picks(prog, n, members, key, v, i) {
      PickedStays(prog, n, members, key, v, i);
      forall j | 0 <= j < |members| && Picks(prog, n, members, key, v, j) ensures j == i {
        OnePick(prog, n, members, key, v, i, j);
      }
      var d := Drop(prog, n, members[i], v);
      forall j | 0 <= j < |members| && Picks(prog, n, members, key, d, j) ensures j == i {
        OnePick(prog, n, members, key, d, i, j);
      }
    } else {
      NobodyLeads(prog, n, members, key, v);
      NobodyPicked(prog, n, members, key, v);
    }
  }

  lemma {:induction false} OnePick(prog: seq<ZConst>, n: nat, members: seq<Zod>, key: string, v: Json, i: nat, j: nat)
    requires n <= |prog| && i < |members| && j < |members|
    requires Picks(prog, n, members, key, v, i) && Picks(prog, n, members, key, v, j)
    ensures i == j
  {
    hide HasKey, KeyValues;
  }

  /** If no member is picked, the key leads to none of them. */
  lemma {:induction false} NobodyLeads(prog: seq<ZConst>, n: nat, members: seq<Zod>, key: string, v: Json)
    requires n <= |prog| && forall i :: 0 <= i < |members| ==> !Picks(prog, n, members, key, v, i)
    ensures forall i :: 0 <= i < |members| ==> !HasKey(v, key, KeyValues(prog, n, members[i], key))
  {
    hide HasKey, KeyValues;
    for i := 0 to |members|
      invariant forall j :: 0 <= j < i ==> !HasKey(v, key, KeyValues(prog, n, members[j], key))
    {
      assert !Picks(prog, n, members, key, v, i);
    }
  }

  lemma {:induction false} TolerantObject(prog: seq<ZConst>, n: nat, shape: seq<ZField>, strict: bool, fields: seq<Field>)
    requires n <= |prog| && WellShaped(ZObject(shape, strict))
    ensures ZodAccepts(prog, n, ZObject(LoosenShape(shape), false), Obj(fields)) <==>
            ZodAccepts(prog, n, ZObject(shape, strict), Obj(DropFields(prog, n, shape, fields)))
    decreases shape, 2
  {
    hide DropFields, ZodAccepts, FieldSuits, Declares, Complete, LoosenShape;
    var kept := DropFields(prog, n, shape, fields);
    ObjectParts(prog, n, LoosenShape(shape), false, fields);
    ObjectParts(prog, n, shape, strict, kept);
    DroppedComplete(prog, n, shape, LoosenShape(shape), fields);
    DroppedPresence(prog, n, shape, fields, "");
    TolerantFields(prog, n, shape, fields);
  }

  lemma {:induction false} TolerantFields(prog: seq<ZConst>, n: nat, shape: seq<ZField>, fields: seq<Field>)
    requires n <= |prog| && WellShaped(ZObject(shape, false))
    ensures (forall f :: f in fields ==> FieldSuits(prog, n, LoosenShape(shape), f)) <==>
            (forall f :: f in DropFields(prog, n, shape, fields) ==> FieldSuits(prog, n, shape, f))
    decreases shape, 1, fields
  {
    hide ZodAccepts, Drop, DropValue, LoosenShape, Declares, WellShaped, FieldSuits;
    if fields != [] {
      TolerantFields(prog, n, shape, fields[1..]);
      TolerantField(prog, n, shape, fields[0]);
      var rest := DropFields(prog, n, shape, fields[1..]);
      var all := DropFields(prog, n, shape, fields);
      assert forall f :: f in fields <==> f == fields[0] || f in fields[1..];
      if Declares(shape, fields[0].name) {
        assert all[0] in all && all[1..] == rest;
        assert forall f :: f in all <==> f == all[0] || f in rest;
      }
    }
  }

  lemma {:induction false} TolerantField(prog: seq<ZConst>, n: nat, shape: seq<ZField>, f: Field)
    requires n <= |prog| && WellShaped(ZObject(shape, false))
    ensures Declares(shape, f.name) ==>
      (FieldSuits(prog, n, LoosenShape(shape), f) <==>
       FieldSuits(prog, n, shape, Field(f.name, DropValue(prog, n, shape, f.name, f.value))))
    ensures !Declares(shape, f.name) ==> FieldSuits(prog, n, LoosenShape(shape), f)
    decreases shape, 0
  {
    hide ZodAccepts, Drop, DropValue, LoosenShape, Loosen;
    if Declares(shape, f.name) {
      var k :| 0 <= k < |shape| && shape[k].name == f.name;
      TolerantIsStrictAfterDropping(prog, n, shape[k].zod, f.value);
      ValueOfKey(prog, n, shape, k, f.value);
      var d := Field(f.name, DropValue(prog, n, shape, f.name, f.value));
      assert forall j :: 0 <= j < |shape| && shape[j].name == f.name ==> j == k;
      assert LoosenShape(shape)[k].zod == Loosen(shape[k].zod);
    }
  }

  /** Properties of a schema object have distinct names, at every level. */
  ghost predicate DistinctProperties(s: Schema) {
    && (s.oneOf.Listed? ==> forall i :: 0 <= i < |s.oneOf.value| ==> DistinctProperties(s.oneOf.value[i]))
    && (s.items.Items? ==> DistinctProperties(s.items.value))
    && (s.extra.Typed? ==> DistinctProperties(s.extra.schema))
    && (s.properties.Properties? ==>
          && (forall i, j :: 0 <= i < j < |s.properties.value| ==> s.properties.value[i].name != s.properties.value[j].name)
          && forall k :: 0 <= k < |s.properties.value| ==> DistinctProperties(s.properties.value[k].schema))
  }

  lemma {:induction false} CompiledIsWellShaped(s: Schema, tolerant: bool)
    requires DistinctProperties(s) && Compile(s, tolerant).Success?
    ensures WellShaped(Compile(s, tolerant).value)
    decreases s
  {
    hide CompileAll, CompileShape;
    if s.ref == "" && s.values.None? {
      if s.oneOf.Listed? {
        forall i | 0 <= i < |s.oneOf.value| ensures WellShaped(CompileAll(s.oneOf.value, tolerant).value[i]) {
          CompiledIsWellShaped(s.oneOf.value[i], tolerant);
        }
      } else if s.typ == Some("array") && s.items.Items? {
        CompiledIsWellShaped(s.items.value, tolerant);
      } else if s.typ == Some("object") && s.properties.Properties? {
        forall k | 0 <= k < |s.properties.value|
          ensures WellShaped(CompileShape(s.properties.value, s.required, tolerant).value[k].zod)
        {
          CompiledIsWellShaped(s.properties.value[k].schema, tolerant);
        }
      } else if s.typ == Some("object") && s.extra.Typed? {
        CompiledIsWellShaped(s.extra.schema, tolerant);
      }
    }
  }

  /** A queue payload's validator takes a message exactly when the strict one takes what the schema declares of it. */
  lemma {:induction false} QueuePayloadIsTolerant(prog: seq<ZConst>, n: nat, s: Schema, v: Json)
    requires n <= |prog| && DistinctProperties(s) && Compile(s, true).Success?
    ensures Compile(s, false).Success?
    ensures ZodAccepts(prog, n, Compile(s, true).value, v) <==>
            ZodAccepts(prog, n, Compile(s, false).value, Drop(prog, n, Compile(s, false).value, v))
  {
    hide Compile, Loosen, ZodAccepts, Drop;
    TolerantIsLoosened(s);
    CompiledIsWellShaped(s, false);
    TolerantIsStrictAfterDropping(prog, n, Compile(s, false).value, v);
  }
}
