/** What the generator of runtime validators refuses, and the names it exports. */
module ZodRefusal {
  import opened Basics
  import opened JsonTree
  import opened Text
  import opened ZodCompiler
  import ZodFaithful

  // ---------------------------------------------------------------- the nodes the generator meets

  const TYPES: set<string> := {"string", "number", "integer", "boolean", "array", "object"}

  /** No `$ref`, no `enum`, no `oneOf`, and none of the six types. */
  ghost predicate IsUnsupported(s: Schema) {
    s.ref == "" && s.values.None? && s.oneOf.Absent? && (s.typ.None? || s.typ.value !in TYPES)
  }

  /** The generator goes on from `s` to `t`: a member, an item, a property or a map's values. */
  ghost predicate LeadsTo(s: Schema, t: Schema) {
    && s.ref == "" && s.values.None?
    && match s.oneOf
       case Listed(members) => t in members
       case Absent =>
         || (s.typ == Some("array") && s.items == Items(t))
         || (s.typ == Some("object") && s.properties == NoProperties && s.extra == Typed(t))
         || (s.typ == Some("object") && s.properties.Properties? && exists p :: p in s.properties.value && p.schema == t)
  }

  /** A descent from a node to one the generator meets on its way through it. */
  ghost predicate IsDescent(trail: seq<Schema>, s: Schema, t: Schema) {
    && trail != [] && trail[0] == s && trail[|trail| - 1] == t
    && forall i, j :: 0 <= i && j == i + 1 < |trail| ==> LeadsTo(trail[i], trail[j])
  }

  ghost predicate Meets(s: Schema, t: Schema) {
    exists trail :: IsDescent(trail, s, t)
  }

  lemma {:induction false} MeetsItself(s: Schema)
    ensures Meets(s, s)
  {
    assert IsDescent([s], s, s);
  }

  lemma {:induction false} MeetsFurther(s: Schema, next: Schema, t: Schema)
    requires LeadsTo(s, next) && Meets(next, t)
    ensures Meets(s, t)
  {
    hide LeadsTo;
    var trail :| IsDescent(trail, next, t);
    assert IsDescent([s] + trail, s, t);
  }

  // ---------------------------------------------------------------- refusals

  /** The node named in a refusal is one the generator met and does not cover. */
  lemma {:induction false} RefusedNodeIsUnsupported(s: Schema, tolerant: bool)
    requires Compile(s, tolerant).Failure?
    ensures Meets(s, Compile(s, tolerant).error) && IsUnsupported(Compile(s, tolerant).error)
    decreases s, 0
  {
    hide Meets;
    var error := Compile(s, tolerant).error;
    if s.oneOf.Listed? {
      var member := RefusedMember(s.oneOf.value, tolerant);
      MeetsFurther(s, member, error);
    } else if s.typ == Some("array") {
      RefusedNodeIsUnsupported(s.items.value, tolerant);
      MeetsFurther(s, s.items.value, error);
    } else if s.typ == Some("object") && s.properties.NoProperties? {
      RefusedNodeIsUnsupported(s.extra.schema, tolerant);
      MeetsFurther(s, s.extra.schema, error);
    } else if s.typ == Some("object") {
      var p := RefusedProperty(s.properties.value, s.required, tolerant);
      MeetsFurther(s, p.schema, error);
    } else {
      MeetsItself(s);
    }
  }

  lemma {:induction false} RefusedMember(members: seq<Schema>, tolerant: bool) returns (member: Schema)
    requires CompileAll(members, tolerant).Failure?
    ensures member in members && Meets(member, CompileAll(members, tolerant).error)
    ensures IsUnsupported(CompileAll(members, tolerant).error)
    decreases members, 1
  {
    hide Compile, Meets;
    if Compile(members[0], tolerant).Failure? {
      member := members[0];
      RefusedNodeIsUnsupported(member, tolerant);
    } else {
      member := RefusedMember(members[1..], tolerant);
    }
  }

  lemma {:induction false} RefusedProperty(ps: seq<Property>, required: seq<string>, tolerant: bool) returns (p: Property)
    requires CompileShape(ps, required, tolerant).Failure?
    ensures p in ps && Meets(p.schema, CompileShape(ps, required, tolerant).error)
    ensures IsUnsupported(CompileShape(ps, required, tolerant).error)
    decreases ps, 1
  {
    hide Compile, Meets;
    if Compile(ps[0].schema, tolerant).Failure? {
      p := ps[0];
      RefusedNodeIsUnsupported(p.schema, tolerant);
    } else {
      p := RefusedProperty(ps[1..], required, tolerant);
    }
  }

  lemma {:induction false} UnsupportedIsRefused(s: Schema, tolerant: bool)
    requires IsUnsupported(s)
    ensures Compile(s, tolerant).Failure?
  {
  }

  /** What is compiled on the way to a node is refused with it. */
  lemma {:induction false} RefusalSpreads(s: Schema, next: Schema, tolerant: bool)
    requires LeadsTo(s, next) && Compile(next, tolerant).Failure?
    ensures Compile(s, tolerant).Failure?
  {
    hide CompileAll, CompileShape;
    if s.oneOf.Listed? {
      CompiledMembers(s.oneOf.value, tolerant);
    } else if s.properties.Properties? {
      CompiledProperties(s.properties.value, s.required, tolerant);
    }
  }

  lemma {:induction false} CompiledMembers(members: seq<Schema>, tolerant: bool)
    ensures CompileAll(members, tolerant).Success? ==> forall m :: m in members ==> Compile(m, tolerant).Success?
  {
    hide Compile, CompileAll;
    forall m | m in members && CompileAll(members, tolerant).Success? ensures Compile(m, tolerant).Success? {
      var i :| 0 <= i < |members| && members[i] == m;
    }
  }

  lemma {:induction false} CompiledProperties(ps: seq<Property>, required: seq<string>, tolerant: bool)
    ensures CompileShape(ps, required, tolerant).Success? ==> forall p :: p in ps ==> Compile(p.schema, tolerant).Success?
  {
    hide Compile, CompileShape;
    forall p | p in ps && CompileShape(ps, required, tolerant).Success? ensures Compile(p.schema, tolerant).Success? {
      var k :| 0 <= k < |ps| && ps[k] == p;
    }
  }

  lemma {:induction false} DescentIsRefused(trail: seq<Schema>, s: Schema, t: Schema, tolerant: bool)
    requires IsDescent(trail, s, t) && Compile(t, tolerant).Failure?
    ensures Compile(s, tolerant).Failure?
    decreases |trail|
  {
    hide Compile, LeadsTo;
    if |trail| > 1 {
      assert LeadsTo(trail[0], trail[1]);
      DescentIsRefused(trail[1..], trail[1], t, tolerant);
      RefusalSpreads(s, trail[1], tolerant);
    }
  }

  /** A node is refused exactly when the generator meets one it does not cover, whichever way it reads it. */
  lemma {:induction false} RefusesExactlyUnsupported(s: Schema, tolerant: bool)
    ensures Compile(s, tolerant).Failure? <==> exists t :: Meets(s, t) && IsUnsupported(t)
    ensures Compile(s, tolerant).Failure? ==>
              Meets(s, Compile(s, tolerant).error) && IsUnsupported(Compile(s, tolerant).error)
  {
    hide Compile, IsDescent, IsUnsupported;
    if Compile(s, tolerant).Failure? {
      RefusedNodeIsUnsupported(s, tolerant);
    }
    if t :| Meets(s, t) && IsUnsupported(t) {
      var trail :| IsDescent(trail, s, t);
      UnsupportedIsRefused(t, tolerant);
      DescentIsRefused(trail, s, t, tolerant);
    }
  }

  /** No module is emitted exactly when some schema meets a node the generator does not cover. */
  lemma {:induction false} ModuleRefusedExactly(doc: Document, tolerant: set<string>)
    ensures Render(doc, tolerant).Failure? <==>
            exists p, t :: p in doc && Meets(p.schema, t) && IsUnsupported(t)
  {
    hide Compile, Meets, IsUnsupported;
    if Render(doc, tolerant).Success? {
      forall p, t | p in doc && Meets(p.schema, t) ensures !IsUnsupported(t) {
        var i :| 0 <= i < |doc| && doc[i] == p;
        RefusesExactlyUnsupported(p.schema, p.name in tolerant);
      }
    } else {
      if forall i :: 0 <= i < |doc| ==> Compile(doc[i].schema, doc[i].name in tolerant).Success? {
        ZodFaithful.DocumentCompiles(doc, tolerant);
        assert false;
      } else {
        var i :| 0 <= i < |doc| && Compile(doc[i].schema, doc[i].name in tolerant).Failure?;
        RefusesExactlyUnsupported(doc[i].schema, doc[i].name in tolerant);
        assert doc[i] in doc;
      }
    }
  }

  // ---------------------------------------------------------------- exported names

  /** Every other character only separates words. */
  lemma {:induction false} Alphabet(c: char)
    ensures IsAlphanumeric(c) <==> IsLetterOrDigit(c)
  {
  }

  /** A small letter becomes the capital at its place in the alphabet. */
  lemma {:induction false} CapitalOfLetter(i: nat)
    requires i < 26
    ensures UpperCase(SMALL[i]) == CAPITAL[i]
  {
    SmallLetters(i);
    CapitalLetters(i);
  }

  lemma {:induction false} SmallLetters(i: nat)
    requires i < 26
    ensures SMALL[i] as int == 'a' as int + i
  {
  }

  lemma {:induction false} CapitalLetters(i: nat)
    requires i < 26
    ensures CAPITAL[i] as int == 'A' as int + i
  {
  }

  function CapitalOf(c: char): char {
    if c in SMALL then CAPITAL[IndexOfChar(SMALL, c)] else c
  }

  function IndexOfChar(s: string, c: char): (i: nat)
    requires c in s
    ensures i < |s| && s[i] == c
  {
    if s[0] == c then 0 else 1 + IndexOfChar(s[1..], c)
  }

  lemma {:induction false} CapitalIsUpper(c: char)
    ensures UpperCase(c) == CapitalOf(c)
  {
    if c in SMALL {
      CapitalOfLetter(IndexOfChar(SMALL, c));
    }
  }

  /** One run of letters and digits. */
  ghost predicate IsWord(s: string) {
    s != "" && forall c :: c in s ==> IsLetterOrDigit(c)
  }

  lemma {:induction false} RunStays(s: string)
    requires forall c :: c in s ==> IsLetterOrDigit(c)
    ensures PascalFrom(s, false) == s
  {
    hide IsLetterOrDigit, IsAlphanumeric;
    if s != "" {
      Alphabet(s[0]);
      RunStays(s[1..]);
    }
  }

  lemma {:induction false} PascalOfParts(a: string, sep: char, b: string, start: bool)
    requires !IsLetterOrDigit(sep)
    ensures PascalFrom(a + [sep] + b, start) == PascalFrom(a, start) + PascalFrom(b, true)
  {
    hide IsLetterOrDigit, IsAlphanumeric, UpperCase;
    if a == "" {
      Alphabet(sep);
      assert ([sep] + b)[1..] == b;
      assert a + [sep] + b == [sep] + b;
    } else {
      assert (a + [sep] + b)[1..] == a[1..] + [sep] + b;
      PascalOfParts(a[1..], sep, b, true);
      PascalOfParts(a[1..], sep, b, false);
    }
  }

  /** Pascal case raises the first letter of a word and keeps the rest. */
  lemma {:induction false} PascalOfWord(word: string)
    requires IsWord(word)
    ensures PascalCase(word) == [CapitalOf(word[0])] + word[1..]
  {
    hide IsLetterOrDigit, IsAlphanumeric, UpperCase, CapitalOf;
    Alphabet(word[0]);
    CapitalIsUpper(word[0]);
    RunStays(word[1..]);
  }

  /** What stands between words is dropped, and each is written by itself: with the words, that is all there is to it. */
  lemma {:induction false} PascalOfPhrase(a: string, sep: char, b: string)
    requires !IsLetterOrDigit(sep)
    ensures PascalCase(a + [sep] + b) == PascalCase(a) + PascalCase(b) && PascalCase("") == ""
  {
    hide IsLetterOrDigit;
    PascalOfParts(a, sep, b, true);
  }

  lemma {:induction false} PascalIsLetters(s: string, start: bool)
    ensures forall c :: c in PascalFrom(s, start) ==> IsLetterOrDigit(c)
  {
    hide IsLetterOrDigit, IsAlphanumeric, UpperCase;
    if s != "" {
      Alphabet(s[0]);
      CapitalStays(s[0]);
      PascalIsLetters(s[1..], true);
      PascalIsLetters(s[1..], false);
    }
  }

  lemma {:induction false} CapitalStays(c: char)
    ensures IsLetterOrDigit(c) ==> IsLetterOrDigit(UpperCase(c))
  {
    CapitalIsUpper(c);
  }

  /**
   * Every exported constant is letters and digits, then `Schema`. One word that starts with a capital or
   * a digit keeps its spelling, and a reference to it compiles to the same constant.
   */
  lemma {:induction false} ExportedNames(doc: Document, tolerant: set<string>, i: nat)
    requires Render(doc, tolerant).Success? && i < |doc|
    ensures var ident := Render(doc, tolerant).value[i].ident;
            && |ident| >= 6 && ident[|ident| - 6..] == "Schema"
            && (forall c :: c in ident[..|ident| - 6] ==> IsLetterOrDigit(c))
            && ident[..|ident| - 6] == PascalCase(doc[i].name)
            && (IsWord(doc[i].name) && doc[i].name[0] !in SMALL ==> ident == doc[i].name + "Schema")
            && forall s: Schema, t: bool :: s.ref != "" && LastSegment(s.ref) == doc[i].name ==> Compile(s, t) == Success(ZRef(ident))
  {
    hide IsLetterOrDigit, PascalFrom, Render, LastSegment;
    var name := doc[i].name;
    PascalIsLetters(name, true);
    if IsWord(name) {
      PascalOfWord(name);
    }
  }
}
