/** Variants and enum values that modules add to schemas another module left open. */
module UnionExtensions {
  import opened Basics

  const SCHEMAS := "#/components/schemas/"

  function RefTo(name: string): string {
    SCHEMAS + name
  }

  /**
   * A schema as far as this step looks at it: the refs of a `oneOf`, its discriminator mapping, and the
   * discriminator value the schema carries as a variant (the first of `properties.code.enum`).
   */
  datatype Schema = Schema(oneOf: Option<seq<string>>, mapping: Option<map<string, string>>, code: Option<string>, rest: string)

  type Schemas = map<string, Schema>

  datatype Declaration = Declaration(name: string, schema: Schema)

  /** One `x-extends` entry: a schema of the owner, and what is appended to it. */
  datatype Extension = Extension(name: string, values: seq<string>)

  datatype Fragment = Fragment(extensions: seq<Extension>, schemas: seq<Declaration>)

  predicate Declares(fragment: Fragment, name: string) {
    exists i :: 0 <= i < |fragment.schemas| && fragment.schemas[i].name == name
  }

  // ---------------------------------------------------------------- the three steps, as functions

  /** The fragment's schemas added; refused when a name is taken. */
  function Merged(schemas: Schemas, declarations: seq<Declaration>): Option<Schemas>
    decreases |declarations|
  {
    if declarations == [] then Some(schemas)
    else if declarations[0].name in schemas then None
    else Merged(schemas[declarations[0].name := declarations[0].schema], declarations[1..])
  }

  /** One variant appended to a union; refused when undeclared, without a code, or with a used one. */
  function WithVariant(union: Schema, name: string, schemas: Schemas, fragment: Fragment): Option<Schema>
    requires union.oneOf.Some?
  {
    var longer := union.(oneOf := Some(union.oneOf.value + [RefTo(name)]));
    if !Declares(fragment, name) then None
    else if union.mapping.None? then Some(longer)
    else if name !in schemas || schemas[name].code.None? then None
    else
      var code := schemas[name].code.value;
      if code in union.mapping.value then None
      else Some(longer.(mapping := Some(union.mapping.value[code := RefTo(name)])))
  }

  /** An accepted variant is referred to by the union, and by its mapping under the code it carries. */
  lemma {:induction false} VariantIsAppended(union: Schema, name: string, schemas: Schemas, fragment: Fragment)
    requires union.oneOf.Some? && WithVariant(union, name, schemas, fragment).Some?
    ensures var longer, ref := WithVariant(union, name, schemas, fragment).value, "#/components/schemas/" + name;
            && longer.oneOf == Some(union.oneOf.value + [ref]) && longer.code == union.code && longer.rest == union.rest
            && (union.mapping.None? ==> longer.mapping.None?)
            && (union.mapping.Some? ==>
                  && name in schemas && schemas[name].code.Some? && schemas[name].code.value !in union.mapping.value
                  && longer.mapping == Some(union.mapping.value[schemas[name].code.value := ref]))
  {
  }

  function WithVariants(union: Schema, names: seq<string>, schemas: Schemas, fragment: Fragment): (r: Option<Schema>)
    requires union.oneOf.Some?
    ensures r.Some? ==> r.value.oneOf.Some?
    decreases |names|
  {
    if names == [] then Some(union)
    else
      match WithVariant(union, names[0], schemas, fragment)
      case None => None
      case Some(next) => WithVariants(next, names[1..], schemas, fragment)
  }

  predicate IsUnion(schemas: Schemas, name: string) {
    name in schemas && schemas[name].oneOf.Some?
  }

  function Extended(schemas: Schemas, extensions: seq<Extension>, fragment: Fragment): Option<Schemas>
    decreases |extensions|
  {
    if extensions == [] then Some(schemas)
    else if !IsUnion(schemas, extensions[0].name) then Extended(schemas, extensions[1..], fragment)
    else
      match WithVariants(schemas[extensions[0].name], extensions[0].values, schemas, fragment)
      case None => None
      case Some(union) => Extended(schemas[extensions[0].name := union], extensions[1..], fragment)
  }

  function WithFragment(schemas: Schemas, fragment: Fragment): Option<Schemas> {
    match Merged(schemas, fragment.schemas)
    case None => None
    case Some(merged) => Extended(merged, fragment.extensions, fragment)
  }

  function WithFragments(schemas: Schemas, fragments: seq<Fragment>): Option<Schemas>
    decreases |fragments|
  {
    if fragments == [] then Some(schemas)
    else
      match WithFragment(schemas, fragments[0])
      case None => None
      case Some(next) => WithFragments(next, fragments[1..])
  }

  // ---------------------------------------------------------------- the document, edited in place

  /** The bundle's schema map; a refusal stops the step where it is, as the thrown error does. */
  class Bundle {
    var schemas: Schemas

    constructor (schemas: Schemas)
      ensures this.schemas == schemas
    {
      this.schemas := schemas;
    }

    method MergeSchemas(fragment: Fragment) returns (ok: bool)
      modifies this
      ensures ok <==> Merged(old(schemas), fragment.schemas).Some?
      ensures ok ==> schemas == Merged(old(schemas), fragment.schemas).value
    {
      var declarations := fragment.schemas;
      assert declarations[0..] == declarations;
      for i := 0 to |declarations|
        invariant Merged(schemas, declarations[i..]) == Merged(old(schemas), declarations)
      {
        assert declarations[i..][1..] == declarations[i + 1..];
        if declarations[i].name in schemas {
          return false;
        }
        schemas := schemas[declarations[i].name := declarations[i].schema];
      }
      return true;
    }

    /** Appends one fragment's variants to a union, and to its discriminator mapping if it has one. */
    method AppendVariants(name: string, variants: seq<string>, fragment: Fragment) returns (ok: bool)
      requires IsUnion(schemas, name)
      modifies this
      ensures ok <==> WithVariants(old(schemas)[name], variants, old(schemas), fragment).Some?
      ensures ok ==> schemas == old(schemas)[name := WithVariants(old(schemas)[name], variants, old(schemas), fragment).value]
    {
      assert variants[0..] == variants;
      for i := 0 to |variants|
        invariant IsUnion(schemas, name) && schemas == old(schemas)[name := schemas[name]]
        invariant schemas[name].code == old(schemas)[name].code
        invariant WithVariants(schemas[name], variants[i..], old(schemas), fragment) ==
                  WithVariants(old(schemas)[name], variants, old(schemas), fragment)
      {
        assert variants[i..][1..] == variants[i + 1..];
        var variant, union := variants[i], schemas[name];
        if !Declares(fragment, variant) {
          return false;
        }
        union := union.(oneOf := Some(union.oneOf.value + [RefTo(variant)]));
        if union.mapping.Some? {
          if variant !in schemas || schemas[variant].code.None? {
            return false;
          }
          var code := schemas[variant].code.value;
          if code in union.mapping.value {
            return false;
          }
          union := union.(mapping := Some(union.mapping.value[code := RefTo(variant)]));
        }
        schemas := schemas[name := union];
      }
      return true;
    }

    method WithUnionExtensions(fragments: seq<Fragment>) returns (ok: bool)
      modifies this
      ensures ok <==> WithFragments(old(schemas), fragments).Some?
      ensures ok ==> schemas == WithFragments(old(schemas), fragments).value
    {
      assert fragments[0..] == fragments;
      for i := 0 to |fragments|
        invariant WithFragments(schemas, fragments[i..]) == WithFragments(old(schemas), fragments)
      {
        assert fragments[i..][1..] == fragments[i + 1..];
        ok := Extend(fragments[i]);
        if !ok {
          return false;
        }
      }
      return true;
    }

    /** One fragment: its schemas, then the unions it extends. */
    method Extend(fragment: Fragment) returns (ok: bool)
      modifies this
      ensures ok <==> WithFragment(old(schemas), fragment).Some?
      ensures ok ==> schemas == WithFragment(old(schemas), fragment).value
    {
      var merged := MergeSchemas(fragment);
      if !merged {
        return false;
      }
      var extensions := fragment.extensions;
      assert extensions[0..] == extensions;
      for k := 0 to |extensions|
        invariant Extended(schemas, extensions[k..], fragment) == WithFragment(old(schemas), fragment)
      {
        assert extensions[k..][1..] == extensions[k + 1..];
        if IsUnion(schemas, extensions[k].name) {
          var appended := AppendVariants(extensions[k].name, extensions[k].values, fragment);
          if !appended {
            return false;
          }
        }
      }
      return true;
    }
  }

  // ---------------------------------------------------------------- discriminated unions stay consistent

  /** The discriminator value of the schema a ref points at. */
  function MemberCode(schemas: Schemas, ref: string): Option<string> {
    if SCHEMAS <= ref && ref[|SCHEMAS|..] in schemas then schemas[ref[|SCHEMAS|..]].code else None
  }

  ghost predicate HasCode(schemas: Schemas, ref: string, code: string) {
    MemberCode(schemas, ref) == Some(code)
  }

  /** Each member has a code, and the mapping sends it to that member. */
  ghost predicate MembersMapped(schemas: Schemas, members: seq<string>, mapping: map<string, string>) {
    forall i :: 0 <= i < |members| ==>
      MemberCode(schemas, members[i]).Some?
      && MemberCode(schemas, members[i]).value in mapping
      && mapping[MemberCode(schemas, members[i]).value] == members[i]
  }

  ghost predicate CodesDiffer(schemas: Schemas, members: seq<string>) {
    forall i, j :: 0 <= i < j < |members| ==> MemberCode(schemas, members[i]) != MemberCode(schemas, members[j])
  }

  ghost predicate KeysCovered(schemas: Schemas, members: seq<string>, mapping: map<string, string>) {
    forall code :: code in mapping ==> exists i :: 0 <= i < |members| && HasCode(schemas, members[i], code)
  }

  /** Mapping keys and members' codes are the same values, one to one, and each key maps to its member. */
  ghost predicate Consistent(schemas: Schemas, union: Schema) {
    && union.oneOf.Some? && union.mapping.Some?
    && MembersMapped(schemas, union.oneOf.value, union.mapping.value)
    && CodesDiffer(schemas, union.oneOf.value)
    && KeysCovered(schemas, union.oneOf.value, union.mapping.value)
  }

  /** Every schema is still there, and is still the same variant. */
  ghost predicate Grows(schemas: Schemas, next: Schemas) {
    forall n :: n in schemas ==> n in next && next[n].code == schemas[n].code
  }

  lemma {:induction false} GrowthKeepsCodes(schemas: Schemas, next: Schemas, union: Schema)
    requires Grows(schemas, next) && Consistent(schemas, union)
    ensures Consistent(next, union)
  {
    hide MemberCode, Grows, MembersMapped, CodesDiffer, KeysCovered;
    var members, mapping := union.oneOf.value, union.mapping.value;
    forall i | 0 <= i < |members| ensures MemberCode(next, members[i]) == MemberCode(schemas, members[i]) {
      MappedHasCode(schemas, members, mapping, i);
      GrowthKeepsCode(schemas, next, members[i]);
    }
    MembersStayMapped(schemas, next, members, mapping);
    KeysStayCovered(schemas, next, members, members, mapping);
  }

  lemma {:induction false} MappedHasCode(schemas: Schemas, members: seq<string>, mapping: map<string, string>, i: nat)
    requires MembersMapped(schemas, members, mapping) && i < |members|
    ensures MemberCode(schemas, members[i]).Some?
  {
    hide MemberCode;
  }

  lemma {:induction false} MembersStayMapped(schemas: Schemas, next: Schemas, members: seq<string>, mapping: map<string, string>)
    requires forall i :: 0 <= i < |members| ==> MemberCode(next, members[i]) == MemberCode(schemas, members[i])
    ensures MembersMapped(schemas, members, mapping) ==> MembersMapped(next, members, mapping)
    ensures CodesDiffer(schemas, members) ==> CodesDiffer(next, members)
  {
    hide MemberCode;
  }

  lemma {:induction false} GrowthKeepsCode(schemas: Schemas, next: Schemas, ref: string)
    requires Grows(schemas, next) && MemberCode(schemas, ref).Some?
    ensures MemberCode(next, ref) == MemberCode(schemas, ref)
  {
  }

  lemma {:induction false} KeysStayCovered(
    schemas: Schemas, next: Schemas, was: seq<string>, now: seq<string>, mapping: map<string, string>)
    requires KeysCovered(schemas, was, mapping) && was <= now
    requires forall i :: 0 <= i < |was| ==> MemberCode(next, was[i]) == MemberCode(schemas, was[i])
    ensures KeysCovered(next, now, mapping)
  {
    hide MemberCode;
    forall code | code in mapping ensures exists i :: 0 <= i < |now| && HasCode(next, now[i], code) {
      var i :| 0 <= i < |was| && HasCode(schemas, was[i], code);
      assert HasCode(next, now[i], code);
    }
  }

  lemma {:induction false} RefNamesItsSchema(schemas: Schemas, name: string)
    ensures MemberCode(schemas, RefTo(name)) == if name in schemas then schemas[name].code else None
  {
    assert RefTo(name)[|SCHEMAS|..] == name;
  }

  lemma {:induction false} VariantKeepsConsistent(union: Schema, name: string, schemas: Schemas, fragment: Fragment)
    requires Consistent(schemas, union) && WithVariant(union, name, schemas, fragment).Some?
    ensures Consistent(schemas, WithVariant(union, name, schemas, fragment).value)
  {
    hide MemberCode, MembersMapped, CodesDiffer, KeysCovered, RefTo;
    RefNamesItsSchema(schemas, name);
    AddMember(schemas, union.oneOf.value, union.mapping.value, RefTo(name));
  }

  lemma {:induction false} AddMember(schemas: Schemas, members: seq<string>, mapping: map<string, string>, ref: string)
    requires MembersMapped(schemas, members, mapping) && CodesDiffer(schemas, members)
    requires KeysCovered(schemas, members, mapping)
    requires MemberCode(schemas, ref).Some? && MemberCode(schemas, ref).value !in mapping
    ensures MembersMapped(schemas, members + [ref], mapping[MemberCode(schemas, ref).value := ref])
    ensures CodesDiffer(schemas, members + [ref])
    ensures KeysCovered(schemas, members + [ref], mapping[MemberCode(schemas, ref).value := ref])
  {
    hide MemberCode;
    var more, code := members + [ref], MemberCode(schemas, ref).value;
    KeysStayCovered(schemas, schemas, members, more, mapping);
    assert HasCode(schemas, more[|members|], code);
    assert forall i :: 0 <= i < |members| ==> more[i] == members[i];
  }

  lemma {:induction false} VariantsKeepConsistent(union: Schema, names: seq<string>, schemas: Schemas, fragment: Fragment)
    requires Consistent(schemas, union) && WithVariants(union, names, schemas, fragment).Some?
    ensures Consistent(schemas, WithVariants(union, names, schemas, fragment).value)
    decreases |names|
  {
    hide Consistent, WithVariant;
    if names != [] {
      IsConsistentUnion(schemas, union);
      VariantKeepsConsistent(union, names[0], schemas, fragment);
      VariantsKeepConsistent(WithVariant(union, names[0], schemas, fragment).value, names[1..], schemas, fragment);
    }
  }

  lemma {:induction false} IsConsistentUnion(schemas: Schemas, union: Schema)
    requires Consistent(schemas, union)
    ensures union.oneOf.Some? && union.mapping.Some?
  {
  }

  /** The refs a list of variant names stands for. */
  function RefsTo(names: seq<string>): seq<string> {
    if names == [] then [] else [RefTo(names[0])] + RefsTo(names[1..])
  }

  lemma {:induction false} VariantsFollow(union: Schema, names: seq<string>, schemas: Schemas, fragment: Fragment)
    requires union.oneOf.Some? && WithVariants(union, names, schemas, fragment).Some?
    ensures var next := WithVariants(union, names, schemas, fragment).value;
            && next.oneOf == Some(union.oneOf.value + RefsTo(names))
            && next.mapping.Some? == union.mapping.Some?
            && next.code == union.code && next.rest == union.rest
    decreases |names|
  {
    if names == [] {
      assert union.oneOf.value + [] == union.oneOf.value;
    } else {
      VariantsFollow(WithVariant(union, names[0], schemas, fragment).value, names[1..], schemas, fragment);
      assert union.oneOf.value + [RefTo(names[0])] + RefsTo(names[1..]) == union.oneOf.value + RefsTo(names);
    }
  }

  /** All that a list of extensions, or of fragments, appends to one schema, in their order. */
  function AppendedBy(extensions: seq<Extension>, name: string): seq<string> {
    if extensions == [] then []
    else (if extensions[0].name == name then extensions[0].values else []) + AppendedBy(extensions[1..], name)
  }

  function AppendedByAll(fragments: seq<Fragment>, name: string): seq<string> {
    if fragments == [] then [] else AppendedBy(fragments[0].extensions, name) + AppendedByAll(fragments[1..], name)
  }

  lemma {:induction false} RefsConcat(a: seq<string>, b: seq<string>)
    ensures RefsTo(a + b) == RefsTo(a) + RefsTo(b)
  {
    if a == [] {
      assert a + b == b;
    } else {
      assert (a + b)[1..] == a[1..] + b;
      RefsConcat(a[1..], b);
    }
  }

  /** What one schema is after a step: the same, but for the variants appended if it is a union. */
  ghost predicate Became(was: Schema, now: Schema, appended: seq<string>) {
    && now.code == was.code && now.rest == was.rest && now.mapping.Some? == was.mapping.Some?
    && now.oneOf == (if was.oneOf.None? then None else Some(was.oneOf.value + RefsTo(appended)))
    && (was.oneOf.None? ==> now == was)
  }

  lemma {:induction false} BecameTwice(a: Schema, b: Schema, c: Schema, first: seq<string>, second: seq<string>)
    requires Became(a, b, first) && Became(b, c, second)
    ensures Became(a, c, first + second)
  {
    RefsConcat(first, second);
    if a.oneOf.Some? {
      assert a.oneOf.value + RefsTo(first) + RefsTo(second) == a.oneOf.value + (RefsTo(first) + RefsTo(second));
    }
  }

  lemma {:induction false} BecameItself(a: Schema)
    ensures Became(a, a, [])
  {
    if a.oneOf.Some? {
      assert a.oneOf.value + [] == a.oneOf.value;
    }
  }

  lemma {:induction false} MergedKeeps(schemas: Schemas, declarations: seq<Declaration>)
    requires Merged(schemas, declarations).Some?
    ensures forall n :: n in schemas ==> n in Merged(schemas, declarations).value && Merged(schemas, declarations).value[n] == schemas[n]
    decreases |declarations|
  {
    if declarations != [] {
      MergedKeeps(schemas[declarations[0].name := declarations[0].schema], declarations[1..]);
    }
  }

  /** What holds of every schema after a step that appends `appended(n)` to schema `n`. */
  ghost predicate StepIsSound(schemas: Schemas, next: Schemas, appended: string -> seq<string>) {
    && Grows(schemas, next)
    && forall n :: n in schemas ==>
         Became(schemas[n], next[n], appended(n)) && (Consistent(schemas, schemas[n]) ==> Consistent(next, next[n]))
  }

  lemma {:induction false} StepsCompose(
    a: Schemas, b: Schemas, c: Schemas, f: string -> seq<string>, g: string -> seq<string>, both: string -> seq<string>)
    requires StepIsSound(a, b, f) && StepIsSound(b, c, g) && forall n :: both(n) == f(n) + g(n)
    ensures StepIsSound(a, c, both)
  {
    hide Became, Consistent;
    forall n | n in a ensures Became(a[n], c[n], both(n)) {
      BecameTwice(a[n], b[n], c[n], f(n), g(n));
    }
  }

  lemma {:induction false} ExtendOneIsSound(schemas: Schemas, extension: Extension, fragment: Fragment)
    requires IsUnion(schemas, extension.name)
    requires WithVariants(schemas[extension.name], extension.values, schemas, fragment).Some?
    ensures StepIsSound(schemas,
                        schemas[extension.name := WithVariants(schemas[extension.name], extension.values, schemas, fragment).value],
                        n => if n == extension.name then extension.values else [])
  {
    hide Consistent, WithVariants;
    var union := WithVariants(schemas[extension.name], extension.values, schemas, fragment).value;
    var next := schemas[extension.name := union];
    VariantsFollow(schemas[extension.name], extension.values, schemas, fragment);
    forall n | n in schemas
      ensures Became(schemas[n], next[n], if n == extension.name then extension.values else [])
      ensures Consistent(schemas, schemas[n]) ==> Consistent(next, next[n])
    {
      if n != extension.name {
        BecameItself(schemas[n]);
      } else if Consistent(schemas, schemas[n]) {
        VariantsKeepConsistent(schemas[n], extension.values, schemas, fragment);
      }
      if Consistent(schemas, next[n]) {
        GrowthKeepsCodes(schemas, next, next[n]);
      }
    }
  }

  lemma {:induction false} ExtendNoneIsSound(schemas: Schemas, appended: string -> seq<string>)
    requires forall n :: IsUnion(schemas, n) ==> appended(n) == []
    ensures StepIsSound(schemas, schemas, appended)
  {
    hide Consistent;
    forall n | n in schemas ensures Became(schemas[n], schemas[n], appended(n)) {
      BecameItself(schemas[n]);
    }
  }

  lemma {:induction false} ExtendedIsSound(schemas: Schemas, extensions: seq<Extension>, fragment: Fragment)
    requires Extended(schemas, extensions, fragment).Some?
    ensures StepIsSound(schemas, Extended(schemas, extensions, fragment).value, n => AppendedBy(extensions, n))
    decreases |extensions|
  {
    hide StepIsSound, WithVariants;
    if extensions == [] {
      ExtendNoneIsSound(schemas, n => AppendedBy(extensions, n));
    } else {
      var head := extensions[0];
      var first := (n: string) => if n == head.name then head.values else [];
      var next := if IsUnion(schemas, head.name)
        then schemas[head.name := WithVariants(schemas[head.name], head.values, schemas, fragment).value] else schemas;
      if IsUnion(schemas, head.name) {
        ExtendOneIsSound(schemas, head, fragment);
      } else {
        ExtendNoneIsSound(schemas, first);
      }
      ExtendedIsSound(next, extensions[1..], fragment);
      StepsCompose(schemas, next, Extended(schemas, extensions, fragment).value,
                   first, n => AppendedBy(extensions[1..], n), n => AppendedBy(extensions, n));
    }
  }

  lemma {:induction false} FragmentIsSound(schemas: Schemas, fragment: Fragment)
    requires WithFragment(schemas, fragment).Some?
    ensures StepIsSound(schemas, WithFragment(schemas, fragment).value, n => AppendedBy(fragment.extensions, n))
  {
    hide StepIsSound, Merged, Extended, AppendedBy;
    var merged := Merged(schemas, fragment.schemas).value;
    MergingIsSound(schemas, fragment.schemas);
    ExtendedIsSound(merged, fragment.extensions, fragment);
    forall n ensures AppendedBy(fragment.extensions, n) == [] + AppendedBy(fragment.extensions, n) {
    }
    StepsCompose(schemas, merged, WithFragment(schemas, fragment).value, n => [],
                 n => AppendedBy(fragment.extensions, n), n => AppendedBy(fragment.extensions, n));
  }

  lemma {:induction false} MergingIsSound(schemas: Schemas, declarations: seq<Declaration>)
    requires Merged(schemas, declarations).Some?
    ensures StepIsSound(schemas, Merged(schemas, declarations).value, n => [])
  {
    hide Merged, Consistent;
    MergedKeeps(schemas, declarations);
    var merged := Merged(schemas, declarations).value;
    forall n | n in schemas
      ensures Became(schemas[n], merged[n], []) && (Consistent(schemas, schemas[n]) ==> Consistent(merged, merged[n]))
    {
      BecameItself(schemas[n]);
      if Consistent(schemas, schemas[n]) {
        GrowthKeepsCodes(schemas, merged, schemas[n]);
      }
    }
  }

  /**
   * Over any list of fragments the step accepts: no schema is lost or changed but for the variants a
   * union gets, which follow its own in fragment order; and a union whose mapping matched its members
   * one to one still matches them.
   */
  lemma {:induction false} ExtendingKeepsUnionsConsistent(schemas: Schemas, fragments: seq<Fragment>)
    requires WithFragments(schemas, fragments).Some?
    ensures StepIsSound(schemas, WithFragments(schemas, fragments).value, n => AppendedByAll(fragments, n))
    decreases |fragments|
  {
    hide StepIsSound, WithFragment, AppendedBy;
    if fragments == [] {
      ExtendNoneIsSound(schemas, n => AppendedByAll(fragments, n));
    } else {
      var next := WithFragment(schemas, fragments[0]).value;
      FragmentIsSound(schemas, fragments[0]);
      ExtendingKeepsUnionsConsistent(next, fragments[1..]);
      StepsCompose(schemas, next, WithFragments(schemas, fragments).value, n => AppendedBy(fragments[0].extensions, n),
                   n => AppendedByAll(fragments[1..], n), n => AppendedByAll(fragments, n));
    }
  }

  // ---------------------------------------------------------------- when a union accepts its variants

  ghost predicate HasSchema(fragment: Fragment, name: string) {
    exists d :: d in fragment.schemas && d.name == name
  }

  lemma {:induction false} DeclaresExactly(fragment: Fragment, name: string)
    ensures Declares(fragment, name) <==> HasSchema(fragment, name)
  {
    if d :| d in fragment.schemas && d.name == name {
      var i :| 0 <= i < |fragment.schemas| && fragment.schemas[i] == d;
    }
  }

  /** Declared by the fragment, and, for a union with a mapping, carrying codes nobody uses yet. */
  ghost predicate Acceptable(union: Schema, names: seq<string>, schemas: Schemas, fragment: Fragment) {
    && (forall i :: 0 <= i < |names| ==> HasSchema(fragment, names[i]))
    && (union.mapping.Some? ==>
          && (forall i :: 0 <= i < |names| ==> names[i] in schemas && schemas[names[i]].code.Some?
                                               && schemas[names[i]].code.value !in union.mapping.value)
          && (forall i, j :: 0 <= i < j < |names| && names[i] in schemas && names[j] in schemas ==>
                schemas[names[i]].code != schemas[names[j]].code))
  }

  lemma {:induction false} AcceptsExactlyUnusedCodes(union: Schema, names: seq<string>, schemas: Schemas, fragment: Fragment)
    requires union.oneOf.Some?
    ensures WithVariants(union, names, schemas, fragment).Some? <==> Acceptable(union, names, schemas, fragment)
    decreases |names|
  {
    hide Declares, HasSchema, RefTo;
    if names != [] {
      DeclaresExactly(fragment, names[0]);
      var head, rest := names[0], names[1..];
      assert forall i :: 0 <= i < |rest| ==> rest[i] == names[i + 1];
      assert forall i :: 0 < i < |names| ==> names[i] == rest[i - 1];
      var next := WithVariant(union, head, schemas, fragment);
      if next.Some? {
        AcceptsExactlyUnusedCodes(next.value, rest, schemas, fragment);
      }
    }
  }

  // ---------------------------------------------------------------- open enums

  function Appended(sources: map<string, seq<string>>, extensions: seq<Extension>): map<string, seq<string>>
    decreases |extensions|
  {
    if extensions == [] then sources
    else
      var name := extensions[0].name;
      Appended(sources[name := (if name in sources then sources[name] else []) + extensions[0].values], extensions[1..])
  }

  function AllAppended(sources: map<string, seq<string>>, fragments: seq<Fragment>): map<string, seq<string>>
    decreases |fragments|
  {
    if fragments == [] then sources else AllAppended(Appended(sources, fragments[0].extensions), fragments[1..])
  }

  /** What every fragment appends to each schema it extends, gathered entry by entry. */
  method EnumSourcesOf(fragments: seq<Fragment>) returns (sources: map<string, seq<string>>)
    ensures sources == AllAppended(map[], fragments)
  {
    sources := map[];
    assert fragments[0..] == fragments;
    for i := 0 to |fragments|
      invariant AllAppended(sources, fragments[i..]) == AllAppended(map[], fragments)
    {
      assert fragments[i..][1..] == fragments[i + 1..];
      var extensions := fragments[i].extensions;
      ghost var before := sources;
      assert extensions[0..] == extensions;
      for k := 0 to |extensions|
        invariant Appended(sources, extensions[k..]) == Appended(before, extensions)
      {
        assert extensions[k..][1..] == extensions[k + 1..];
        var name := extensions[k].name;
        sources := sources[name := (if name in sources then sources[name] else []) + extensions[k].values];
      }
    }
  }

  function ValuesAt(sources: map<string, seq<string>>, name: string): seq<string> {
    if name in sources then sources[name] else []
  }

  lemma {:induction false} AppendedInOrder(sources: map<string, seq<string>>, extensions: seq<Extension>, name: string)
    ensures ValuesAt(Appended(sources, extensions), name) == ValuesAt(sources, name) + AppendedBy(extensions, name)
    decreases |extensions|
  {
    if extensions == [] {
      assert ValuesAt(sources, name) + [] == ValuesAt(sources, name);
    } else {
      var head := extensions[0];
      var next := sources[head.name := ValuesAt(sources, head.name) + head.values];
      AppendedInOrder(next, extensions[1..], name);
      var rest := AppendedBy(extensions[1..], name);
      assert head.name == name ==> ValuesAt(sources, name) + head.values + rest == ValuesAt(sources, name) + (head.values + rest);
      assert [] + rest == rest;
    }
  }

  /** An open enum is offered every fragment's values, fragment after fragment, and nothing else. */
  lemma {:induction false} SourcesInFragmentOrder(sources: map<string, seq<string>>, fragments: seq<Fragment>, name: string)
    ensures ValuesAt(AllAppended(sources, fragments), name) == ValuesAt(sources, name) + AppendedByAll(fragments, name)
    decreases |fragments|
  {
    if fragments == [] {
      assert ValuesAt(sources, name) + [] == ValuesAt(sources, name);
    } else {
      var next := Appended(sources, fragments[0].extensions);
      AppendedInOrder(sources, fragments[0].extensions, name);
      SourcesInFragmentOrder(next, fragments[1..], name);
      var a, b, c := ValuesAt(sources, name), AppendedBy(fragments[0].extensions, name), AppendedByAll(fragments[1..], name);
      assert a + b + c == a + (b + c);
    }
  }
}
