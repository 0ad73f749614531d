/** The root OpenAPI document, completed from what the modules ship. */
module RootAssembly {
  import opened Basics
  import opened Text
  import opened SectionOrder

  // ---------------------------------------------------------------- JSON Pointer escaping

  function ReplaceAll(s: string, c: char, with: string): string {
    if s == [] then "" else (if s[0] == c then with else [s[0]]) + ReplaceAll(s[1..], c, with)
  }

  function ReplacePair(s: string, first: char, second: char, with: char): string {
    if |s| < 2 then s
    else if s[0] == first && s[1] == second then [with] + ReplacePair(s[2..], first, second, with)
    else [s[0]] + ReplacePair(s[1..], first, second, with)
  }

  function EncodePointer(segment: string): string {
    ReplaceAll(ReplaceAll(segment, '~', "~0"), '/', "~1")
  }

  /** Section 4 of RFC 6901: `~1` first, then `~0`. */
  function DecodePointer(text: string): string {
    ReplacePair(ReplacePair(text, '~', '1', '/'), '~', '0', '~')
  }

  lemma {:induction false} EncodeCons(s: string)
    requires s != []
    ensures EncodePointer(s) ==
            (if s[0] == '~' then "~0" else if s[0] == '/' then "~1" else [s[0]]) + EncodePointer(s[1..])
  {
    var rest := ReplaceAll(s[1..], '~', "~0");
    if s[0] == '~' {
      var whole := ReplaceAll(s, '~', "~0");
      assert whole[1..] == "0" + rest && whole[1..][1..] == rest;
      assert ReplaceAll(whole, '/', "~1") == "~" + ReplaceAll(whole[1..], '/', "~1");
    } else {
      assert ([s[0]] + rest)[1..] == rest;
    }
  }

  lemma {:induction false} UnescapeSlashes(s: string)
    ensures ReplacePair(EncodePointer(s), '~', '1', '/') == ReplaceAll(s, '~', "~0")
  {
    if s != [] {
      EncodeCons(s);
      UnescapeSlashes(s[1..]);
      var rest := EncodePointer(s[1..]);
      if s[0] == '~' {
        var whole := "~0" + rest;
        assert whole[1..] == "0" + rest && (whole[1..])[1..] == rest;
        assert ReplacePair(whole[1..], '~', '1', '/') == "0" + ReplacePair(rest, '~', '1', '/');
      } else if s[0] == '/' {
        assert ("~1" + rest)[2..] == rest;
      } else {
        assert ([s[0]] + rest)[1..] == rest;
      }
    }
  }

  lemma {:induction false} UnescapeTildes(s: string)
    ensures ReplacePair(ReplaceAll(s, '~', "~0"), '~', '0', '~') == s
  {
    if s != [] {
      UnescapeTildes(s[1..]);
      var rest := ReplaceAll(s[1..], '~', "~0");
      if s[0] == '~' {
        assert ("~0" + rest)[2..] == rest;
      } else {
        assert ([s[0]] + rest)[1..] == rest;
      }
      assert s == [s[0]] + s[1..];
    }
  }

  /** Escaping goes character by character: `~` is written `~0` and `/` is written `~1`. */
  lemma {:induction false} EscapeOf(a: string, c: char, b: string)
    ensures EncodePointer(a + b) == EncodePointer(a) + EncodePointer(b) && EncodePointer("") == ""
    ensures EncodePointer("~") == "~0" && EncodePointer("/") == "~1"
    ensures c != '~' && c != '/' ==> EncodePointer([c]) == [c]
  {
    EncodeCons([c]);
    EncodeCons("~");
    EncodeCons("/");
    if a == "" {
      assert a + b == b;
    } else {
      EncodeCons(a);
      EncodeCons(a + b);
      assert (a + b)[1..] == a[1..] + b;
      EscapeOf(a[1..], c, b);
    }
  }

  /** Escaping loses nothing: decoding gives the segment back, so two segments never share an escape. */
  lemma {:induction false} EscapingIsReversible(a: string, b: string)
    ensures DecodePointer(EncodePointer(a)) == a
    ensures EncodePointer(a) == EncodePointer(b) ==> a == b
    ensures '/' !in EncodePointer(a)
  {
    UnescapeSlashes(a);
    UnescapeTildes(a);
    UnescapeSlashes(b);
    UnescapeTildes(b);
    NoSlashLeft(a);
  }

  lemma {:induction false} NoSlashLeft(s: string)
    ensures '/' !in EncodePointer(s)
  {
    if s != [] {
      EncodeCons(s);
      NoSlashLeft(s[1..]);
    }
  }

  // ---------------------------------------------------------------- the path index

  const PREFIX := "../../src/modules/"
  const MIDDLE := "/openapi.yaml#/paths/"

  function PathRefFor(section: string, url: string): string {
    PREFIX + section + MIDDLE + EncodePointer(url)
  }

  /** The pattern a `$ref` into a module fragment has: a folder name, then at least one more character. */
  predicate IsPathRef(ref: string) {
    && PREFIX <= ref
    && var rest := ref[|PREFIX|..];
       var section := Split(rest, '/')[0];
       && section != ""
       && |section + MIDDLE| < |rest|
       && section + MIDDLE <= rest
       && forall c :: c in rest[|section + MIDDLE|..] ==> c !in LINE_BREAKS
  }

  /** A folder name. */
  predicate IsSection(section: string) {
    section != "" && '/' !in section
  }

  predicate IsUrl(url: string) {
    url != "" && forall c :: c in url ==> c !in LINE_BREAKS
  }

  lemma {:induction false} SplitHead(head: string, tail: string)
    requires '/' !in head
    ensures Split(head + "/" + tail, '/')[0] == head
  {
    SplitCons(head, tail, '/');
  }

  lemma {:induction false} PathRefsAreRecognised(section: string, url: string)
    requires IsSection(section) && IsUrl(url)
    ensures IsPathRef(PathRefFor(section, url))
  {
    hide EncodePointer, IsPathRef;
    EncodeKeepsLines(url);
    WellFormedIsRef(section, EncodePointer(url));
  }

  /** A ref into a module is a folder name between the two fixed parts, then at least one character, on one line. */
  lemma {:induction false} PathRefsExactly(ref: string)
    ensures IsPathRef(ref) <==>
            exists section, rest :: IsSection(section) && IsUrl(rest)
              && ref == "../../src/modules/" + section + "/openapi.yaml#/paths/" + rest
  {
    hide Split;
    if IsPathRef(ref) {
      var rest := ref[|PREFIX|..];
      var section := Split(rest, '/')[0];
      var tail := rest[|section + MIDDLE|..];
      assert rest == section + MIDDLE + tail;
      assert ref == PREFIX + rest;
      assert IsSection(section) && IsUrl(tail);
      assert ref == "../../src/modules/" + section + "/openapi.yaml#/paths/" + tail;
    }
    forall section, tail | IsSection(section) && IsUrl(tail) && ref == "../../src/modules/" + section + "/openapi.yaml#/paths/" + tail
      ensures IsPathRef(ref)
    {
      WellFormedIsRef(section, tail);
    }
  }

  lemma {:induction false} WellFormedIsRef(section: string, tail: string)
    requires IsSection(section) && IsUrl(tail)
    ensures IsPathRef(PREFIX + section + MIDDLE + tail)
  {
    hide Split;
    var rest := (PREFIX + section + MIDDLE + tail)[|PREFIX|..];
    assert rest == section + MIDDLE + tail;
    assert rest == section + "/" + (MIDDLE[1..] + tail);
    SplitHead(section, MIDDLE[1..] + tail);
    assert rest[|section + MIDDLE|..] == tail;
  }

  /** The ref of a path, written out. */
  lemma {:induction false} PathRefIs(section: string, url: string)
    ensures PathRefFor(section, url) == "../../src/modules/" + section + "/openapi.yaml#/paths/" + EncodePointer(url)
  {
  }

  lemma {:induction false} EncodeKeepsLines(s: string)
    ensures s != "" ==> EncodePointer(s) != ""
    ensures forall c :: c in EncodePointer(s) && c in LINE_BREAKS ==> c in s
  {
    if s != [] {
      EncodeCons(s);
      EncodeKeepsLines(s[1..]);
    }
  }

  /** A module's path ref names the module and the path, and nothing else does. */
  lemma {:induction false} PathRefsAreInjective(a: string, urlA: string, b: string, urlB: string)
    requires IsSection(a) && IsSection(b)
    ensures PathRefFor(a, urlA) == PathRefFor(b, urlB) <==> a == b && urlA == urlB
  {
    var x, y := PathRefFor(a, urlA), PathRefFor(b, urlB);
    assert x[|PREFIX|..] == a + "/" + (MIDDLE[1..] + EncodePointer(urlA));
    assert y[|PREFIX|..] == b + "/" + (MIDDLE[1..] + EncodePointer(urlB));
    SplitHead(a, MIDDLE[1..] + EncodePointer(urlA));
    SplitHead(b, MIDDLE[1..] + EncodePointer(urlB));
    assert x[|PREFIX + a + MIDDLE|..] == EncodePointer(urlA);
    assert y[|PREFIX + b + MIDDLE|..] == EncodePointer(urlB);
    EscapingIsReversible(urlA, urlB);
  }

  /** What a path item holds: a `$ref`, or a path item written out in the root. */
  datatype Item = Ref(ref: string) | Own(text: string)

  datatype Entry = Entry(key: string, item: Item)

  predicate IsModule(e: Entry) {
    e.item.Ref? && IsPathRef(e.item.ref)
  }

  predicate HasKey(paths: seq<Entry>, key: string) {
    exists i :: 0 <= i < |paths| && paths[i].key == key
  }

  predicate HasItem(paths: seq<Entry>, item: Item) {
    exists i :: 0 <= i < |paths| && paths[i].item == item
  }

  ghost predicate DistinctKeys(paths: seq<Entry>) {
    forall i, j :: 0 <= i < j < |paths| ==> paths[i].key != paths[j].key
  }

  /** YAML `set`: in place when the key exists, at the end otherwise. */
  function Put(paths: seq<Entry>, e: Entry): seq<Entry> {
    if paths == [] then [e]
    else if paths[0].key == e.key then [e] + paths[1..]
    else [paths[0]] + Put(paths[1..], e)
  }

  function PutAll(paths: seq<Entry>, es: seq<Entry>): seq<Entry>
    decreases |es|
  {
    if es == [] then paths else PutAll(Put(paths, es[0]), es[1..])
  }

  /** YAML `delete`: the first entry with the key. */
  function Without(paths: seq<Entry>, key: string): seq<Entry> {
    if paths == [] then []
    else if paths[0].key == key then paths[1..]
    else [paths[0]] + Without(paths[1..], key)
  }

  function EntriesOf(section: string, urls: seq<string>): seq<Entry> {
    if urls == [] then [] else [Entry(urls[0], Ref(PathRefFor(section, urls[0])))] + EntriesOf(section, urls[1..])
  }

  /** What a module's own contract file declares. */
  datatype ModuleFile = ModuleFile(paths: seq<string>, tags: seq<string>, declaredTags: seq<Tag>)

  datatype Fragment = Fragment(section: string, file: ModuleFile)

  /** A tag list item: a mapping with a name, or something else. */
  datatype Tag = Tag(name: string, description: string) | Bare(name: string) | Unnamed(text: string)

  /** The entry the root needs for every path of every fragment. */
  function Wanted(fragments: seq<Fragment>): seq<Entry> {
    if fragments == [] then []
    else EntriesOf(fragments[0].section, fragments[0].file.paths) + Wanted(fragments[1..])
  }

  predicate Stale(wanted: seq<Entry>, e: Entry) {
    IsModule(e) && !HasItem(wanted, e.item)
  }

  function Survivors(paths: seq<Entry>, wanted: seq<Entry>): seq<Entry> {
    Filter(paths, (e: Entry) => !Stale(wanted, e))
  }

  predicate Kept(paths: seq<Entry>, item: Item) {
    exists i :: 0 <= i < |paths| && paths[i].item == item && IsModule(paths[i])
  }

  function Missing(paths: seq<Entry>, wanted: seq<Entry>): seq<Entry> {
    Filter(wanted, (e: Entry) => !Kept(paths, e.item))
  }

  /** The root's path index after stale entries are dropped and missing ones are set. */
  function Assembled(paths: seq<Entry>, wanted: seq<Entry>): seq<Entry> {
    PutAll(Survivors(paths, wanted), Missing(paths, wanted))
  }

  // ---------------------------------------------------------------- facts about set and delete

  lemma {:induction false} PutMember(paths: seq<Entry>, e: Entry)
    requires DistinctKeys(paths)
    ensures DistinctKeys(Put(paths, e))
    ensures forall x :: x in Put(paths, e) <==> x == e || (x in paths && x.key != e.key)
  {
    if paths != [] {
      var head, rest := paths[0], paths[1..];
      assert paths == [head] + rest;
      assert forall x :: x in rest ==> x.key != head.key;
      if head.key != e.key {
        PutMember(rest, e);
        HeadIsFresh(head, Put(rest, e));
      }
    }
  }

  lemma {:induction false} HeadIsFresh(head: Entry, rest: seq<Entry>)
    requires DistinctKeys(rest) && forall x :: x in rest ==> x.key != head.key
    ensures DistinctKeys([head] + rest)
  {
    var all := [head] + rest;
    forall i, j | 0 <= i < j < |all| ensures all[i].key != all[j].key {
      assert all[j] == rest[j - 1] && rest[j - 1] in rest;
      assert i > 0 ==> all[i] == rest[i - 1];
    }
  }

  /** After all sets: nothing but what was set and what no set touched, and the last one set is there. */
  lemma {:induction false} PutAllMember(paths: seq<Entry>, es: seq<Entry>)
    requires DistinctKeys(paths)
    ensures DistinctKeys(PutAll(paths, es))
    ensures forall x :: x in PutAll(paths, es) ==> x in es || (x in paths && !HasKey(es, x.key))
    ensures forall x :: x in paths && !HasKey(es, x.key) ==> x in PutAll(paths, es)
    ensures es != [] ==> es[|es| - 1] in PutAll(paths, es)
    decreases |es|
  {
    if es != [] {
      PutMember(paths, es[0]);
      PutAllMember(Put(paths, es[0]), es[1..]);
      assert es == [es[0]] + es[1..];
      forall x ensures HasKey(es, x) <==> es[0].key == x || HasKey(es[1..], x) {
        KeyCons(es, x);
      }
    }
  }

  lemma {:induction false} KeyCons(es: seq<Entry>, key: string)
    requires es != []
    ensures HasKey(es, key) <==> es[0].key == key || HasKey(es[1..], key)
  {
    if HasKey(es, key) && es[0].key != key {
      var i :| 0 <= i < |es| && es[i].key == key;
      assert es[1..][i - 1].key == key;
    }
  }

  lemma {:induction false} PutAllHasAll(paths: seq<Entry>, es: seq<Entry>)
    requires DistinctKeys(paths) && DistinctKeys(es)
    ensures forall x :: x in es ==> x in PutAll(paths, es)
    decreases |es|
  {
    if es != [] {
      PutMember(paths, es[0]);
      PutAllHasAll(Put(paths, es[0]), es[1..]);
      PutAllMember(Put(paths, es[0]), es[1..]);
    }
  }

  lemma {:induction false} PutAllFresh(paths: seq<Entry>, es: seq<Entry>)
    requires DistinctKeys(es)
    requires forall x :: x in es ==> !HasKey(paths, x.key)
    ensures PutAll(paths, es) == paths + es
    decreases |es|
  {
    if es != [] {
      PutFresh(paths, es[0]);
      forall x | x in es[1..] ensures !HasKey(paths + [es[0]], x.key) {
        assert x in es;
        if HasKey(paths + [es[0]], x.key) {
          var i :| 0 <= i < |paths| + 1 && (paths + [es[0]])[i].key == x.key;
          assert i < |paths| ==> HasKey(paths, x.key);
        }
      }
      PutAllFresh(paths + [es[0]], es[1..]);
      assert paths + [es[0]] + es[1..] == paths + es;
    }
  }

  lemma {:induction false} PutFresh(paths: seq<Entry>, e: Entry)
    requires !HasKey(paths, e.key)
    ensures Put(paths, e) == paths + [e]
  {
    if paths != [] {
      KeyCons(paths, e.key);
      PutFresh(paths[1..], e);
    }
  }

  lemma {:induction false} WithoutIsFilter(paths: seq<Entry>, e: Entry)
    requires DistinctKeys(paths) && e in paths
    ensures Without(paths, e.key) == Filter(paths, (x: Entry) => x != e)
  {
    if paths[0].key == e.key {
      assert paths[0] == e;
      assert forall x :: x in paths[1..] ==> x != e;
      FilterAll(paths[1..], (x: Entry) => x != e);
    } else {
      WithoutIsFilter(paths[1..], e);
    }
  }

  lemma {:induction false} FilterKeys(paths: seq<Entry>, keep: Entry -> bool)
    requires DistinctKeys(paths)
    ensures DistinctKeys(Filter(paths, keep))
  {
    if paths != [] {
      FilterKeys(paths[1..], keep);
      assert forall x :: x in paths[1..] ==> x.key != paths[0].key;
    }
  }

  // ---------------------------------------------------------------- what assembling yields

  /** The key of a module entry is the path its ref points at. */
  ghost predicate WellKeyed(e: Entry) {
    exists section :: IsSection(section) && IsUrl(e.key) && e.item == Ref(PathRefFor(section, e.key))
  }

  ghost predicate RootSound(paths: seq<Entry>) {
    DistinctKeys(paths) && forall e :: e in paths && IsModule(e) ==> WellKeyed(e)
  }

  ghost predicate WantedSound(wanted: seq<Entry>) {
    forall e :: e in wanted ==> WellKeyed(e)
  }

  lemma {:induction false} WellKeyedIsModule(e: Entry)
    requires WellKeyed(e)
    ensures IsModule(e)
  {
    var section :| IsSection(section) && IsUrl(e.key) && e.item == Ref(PathRefFor(section, e.key));
    PathRefsAreRecognised(section, e.key);
  }

  lemma {:induction false} SameItemSameEntry(a: Entry, b: Entry)
    requires WellKeyed(a) && WellKeyed(b) && a.item == b.item
    ensures a == b
  {
    var s :| IsSection(s) && IsUrl(a.key) && a.item == Ref(PathRefFor(s, a.key));
    var t :| IsSection(t) && IsUrl(b.key) && b.item == Ref(PathRefFor(t, b.key));
    PathRefsAreInjective(s, a.key, t, b.key);
  }

  /** In a sound root an item stands for its entry. */
  lemma {:induction false} ItemIsEntry(paths: seq<Entry>, wanted: seq<Entry>)
    requires RootSound(paths) && WantedSound(wanted)
    ensures forall e :: e in wanted ==> (Kept(paths, e.item) <==> e in paths)
    ensures forall e :: e in paths && IsModule(e) ==> (HasItem(wanted, e.item) <==> e in wanted)
  {
    hide WellKeyed, IsModule;
    forall e | e in wanted ensures Kept(paths, e.item) <==> e in paths {
      WellKeyedIsModule(e);
      if Kept(paths, e.item) {
        var i :| 0 <= i < |paths| && paths[i].item == e.item && IsModule(paths[i]);
        SameItemSameEntry(paths[i], e);
      }
    }
    forall e | e in paths && IsModule(e) ensures HasItem(wanted, e.item) <==> e in wanted {
      if HasItem(wanted, e.item) {
        var i :| 0 <= i < |wanted| && wanted[i].item == e.item;
        SameItemSameEntry(wanted[i], e);
      }
    }
  }

  lemma {:induction false} SurvivorsKeepKeys(paths: seq<Entry>, wanted: seq<Entry>)
    requires DistinctKeys(paths)
    ensures DistinctKeys(Survivors(paths, wanted))
  {
    FilterKeys(paths, (e: Entry) => !Stale(wanted, e));
  }

  /** The result is sound again, and every entry in it was wanted or root-owned before. */
  lemma {:induction false} AssembledIsSound(paths: seq<Entry>, wanted: seq<Entry>)
    requires RootSound(paths) && WantedSound(wanted)
    ensures RootSound(Assembled(paths, wanted))
    ensures forall x :: x in Assembled(paths, wanted) ==> if IsModule(x) then x in wanted else x in paths
  {
    hide WellKeyed, IsModule;
    SurvivorsKeepKeys(paths, wanted);
    PutAllMember(Survivors(paths, wanted), Missing(paths, wanted));
    ItemIsEntry(paths, wanted);
    forall e | e in wanted ensures IsModule(e) {
      WellKeyedIsModule(e);
    }
  }

  /** A path item the root owns stays exactly when no module claims its path, and no other one appears. */
  lemma {:induction false} RootOwnedStays(paths: seq<Entry>, wanted: seq<Entry>, e: Entry)
    requires RootSound(paths) && WantedSound(wanted) && !IsModule(e)
    ensures e in Assembled(paths, wanted) <==> e in paths && !HasKey(wanted, e.key)
  {
    hide WellKeyed, IsModule;
    AssembledIsSound(paths, wanted);
    SurvivorsKeepKeys(paths, wanted);
    var missing := Missing(paths, wanted);
    PutAllMember(Survivors(paths, wanted), missing);
    forall w | w in wanted ensures IsModule(w) {
      WellKeyedIsModule(w);
    }
    if e in paths && HasKey(wanted, e.key) {
      var i :| 0 <= i < |wanted| && wanted[i].key == e.key;
      ItemIsEntry(paths, wanted);
      assert wanted[i] in missing;
      assert HasKey(missing, e.key);
      assert e !in missing;
    }
    if e in paths && !HasKey(wanted, e.key) {
      FewerKeys(missing, wanted, e.key);
    }
  }

  lemma {:induction false} InWanted(m: Entry, wanted: seq<Entry>)
    requires m in wanted
    ensures HasKey(wanted, m.key)
  {
  }

  /** When no two modules claim one path, the root references exactly the declared paths. */
  lemma {:induction false} ExactlyTheDeclaredPaths(paths: seq<Entry>, wanted: seq<Entry>)
    requires RootSound(paths) && WantedSound(wanted) && DistinctKeys(wanted)
    ensures forall x :: x in wanted <==> x in Assembled(paths, wanted) && IsModule(x)
  {
    hide WellKeyed, IsModule;
    AssembledIsSound(paths, wanted);
    ItemIsEntry(paths, wanted);
    SurvivorsKeepKeys(paths, wanted);
    var missing := Missing(paths, wanted);
    FilterKeys(wanted, (e: Entry) => !Kept(paths, e.item));
    PutAllMember(Survivors(paths, wanted), missing);
    PutAllHasAll(Survivors(paths, wanted), missing);
    forall x | x in wanted ensures x in Assembled(paths, wanted) && IsModule(x) {
      WellKeyedIsModule(x);
      if x !in missing {
        assert x in paths;
        KeyGoesWithEntry(missing, wanted, x);
      }
    }
  }

  lemma {:induction false} OneEntryPerKey(es: seq<Entry>, a: Entry, b: Entry)
    requires DistinctKeys(es) && a in es && b in es
    ensures a.key == b.key ==> a == b
  {
    var i :| 0 <= i < |es| && es[i] == a;
    var j :| 0 <= j < |es| && es[j] == b;
  }

  lemma {:induction false} FewerKeys(es: seq<Entry>, more: seq<Entry>, key: string)
    requires forall x :: x in es ==> x in more
    ensures HasKey(es, key) ==> HasKey(more, key)
  {
    if HasKey(es, key) {
      var i :| 0 <= i < |es| && es[i].key == key;
      InWanted(es[i], more);
    }
  }

  lemma {:induction false} KeyGoesWithEntry(es: seq<Entry>, more: seq<Entry>, x: Entry)
    requires forall e :: e in es ==> e in more
    requires DistinctKeys(more) && x in more && x !in es
    ensures !HasKey(es, x.key)
  {
    forall i | 0 <= i < |es| ensures es[i].key != x.key {
      assert es[i] in es;
      OneEntryPerKey(more, es[i], x);
    }
  }

  /** Everything that stays keeps its place, and what is new follows in the fragments' own order. */
  lemma {:induction false} SurvivorsThenNewcomers(paths: seq<Entry>, wanted: seq<Entry>)
    requires RootSound(paths) && WantedSound(wanted) && DistinctKeys(wanted)
    requires forall e :: e in paths && !IsModule(e) ==> !HasKey(wanted, e.key)
    ensures Assembled(paths, wanted) ==
            Filter(paths, (e: Entry) => !IsModule(e) || e in wanted) + Filter(wanted, (e: Entry) => e !in paths)
  {
    hide WellKeyed, IsModule;
    ItemIsEntry(paths, wanted);
    var survivors, missing := Survivors(paths, wanted), Missing(paths, wanted);
    FilterSame(paths, (e: Entry) => !Stale(wanted, e), (e: Entry) => !IsModule(e) || e in wanted);
    FilterSame(wanted, (e: Entry) => !Kept(paths, e.item), (e: Entry) => e !in paths);
    FilterKeys(wanted, (e: Entry) => !Kept(paths, e.item));
    forall m | m in missing ensures !HasKey(survivors, m.key) {
      InWanted(m, wanted);
      forall i | 0 <= i < |survivors| ensures survivors[i].key != m.key {
        var x := survivors[i];
        assert x in survivors;
        if IsModule(x) {
          OneEntryPerKey(wanted, x, m);
        }
      }
    }
    PutAllFresh(survivors, missing);
  }

  /** A settled root: nothing stale, nothing missing. */
  lemma {:induction false} NothingToDo(paths: seq<Entry>, wanted: seq<Entry>)
    requires RootSound(paths) && WantedSound(wanted)
    requires forall e :: e in paths && IsModule(e) ==> e in wanted
    requires forall e :: e in wanted ==> e in paths
    ensures Assembled(paths, wanted) == paths
  {
    hide WellKeyed, IsModule;
    ItemIsEntry(paths, wanted);
    FilterAll(paths, (e: Entry) => !Stale(wanted, e));
    FilterNone(wanted, (e: Entry) => !Kept(paths, e.item));
  }

  /**
   * Assembling its own output changes nothing exactly when no two modules declare one path. Two that
   * do take the entry from each other on every run: a ref that lost its place counts as missing.
   */
  lemma {:induction false} FixedPointExactlyWhenPathsDiffer(paths: seq<Entry>, wanted: seq<Entry>)
    requires RootSound(paths) && WantedSound(wanted) && Distinct(wanted)
    ensures var out := Assembled(paths, wanted);
            Assembled(out, wanted) == out <==> DistinctKeys(wanted)
  {
    hide WellKeyed, IsModule, Missing;
    var out := Assembled(paths, wanted);
    AssembledIsSound(paths, wanted);
    if DistinctKeys(wanted) {
      ExactlyTheDeclaredPaths(paths, wanted);
      NothingToDo(out, wanted);
    } else {
      var missing := MissingAgain(out, wanted);
      SurvivorsKeepKeys(out, wanted);
      PutAllMember(Survivors(out, wanted), missing);
    }
  }

  /** Two modules that declare one path: whoever holds the entry loses it on the next run. */
  lemma {:induction false} SharedPathChangesHands(a: string, b: string, url: string)
    requires IsSection(a) && IsSection(b) && a != b && IsUrl(url)
    ensures var first, second := Entry(url, Ref(PathRefFor(a, url))), Entry(url, Ref(PathRefFor(b, url)));
            && Assembled([first], [first, second]) == [second]
            && Assembled([second], [first, second]) == [first]
  {
    hide PathRefFor, IsPathRef;
    var first, second := Entry(url, Ref(PathRefFor(a, url))), Entry(url, Ref(PathRefFor(b, url)));
    PathRefsAreInjective(a, url, b, url);
    PathRefsAreRecognised(a, url);
    PathRefsAreRecognised(b, url);
    SharedTakesOver(first, second, [first, second]);
    SharedTakesOver(second, first, [first, second]);
  }

  lemma {:induction false} SharedTakesOver(holder: Entry, other: Entry, wanted: seq<Entry>)
    requires holder.key == other.key && holder.item != other.item && IsModule(holder) && IsModule(other)
    requires wanted == [holder, other] || wanted == [other, holder]
    ensures Assembled([holder], wanted) == [other]
  {
    hide IsModule;
    var paths := [holder];
    assert exists i :: 0 <= i < |wanted| && wanted[i].item == holder.item by {
      assert wanted[0] == holder || wanted[1] == holder;
    }
    FilterAll(paths, (e: Entry) => !Stale(wanted, e));
    assert paths[0].item == holder.item;
    var free := (e: Entry) => !Kept(paths, e.item);
    assert free(other) && !free(holder);
    assert wanted[1..] == [wanted[1]] && wanted[1..][1..] == [];
    assert Filter(wanted[1..], free) == if free(wanted[1]) then [wanted[1]] else [];
    assert Missing(paths, wanted) == [other] by {
      assert Filter(wanted, free) == [other];
      FilterSame(wanted, free, (e: Entry) => !Kept(paths, e.item));
    }
    assert paths[1..] == [] && [other][1..] == [];
    assert Put(paths, other) == [other];
    assert PutAll(paths, [other]) == PutAll([other], []);
  }

  lemma {:induction false} MissingAgain(out: seq<Entry>, wanted: seq<Entry>) returns (missing: seq<Entry>)
    requires RootSound(out) && WantedSound(wanted) && Distinct(wanted) && !DistinctKeys(wanted)
    ensures missing == Missing(out, wanted) && missing != [] && missing[|missing| - 1] !in out
  {
    hide WellKeyed, IsModule;
    missing := Missing(out, wanted);
    ItemIsEntry(out, wanted);
    var i, j :| 0 <= i < j < |wanted| && wanted[i].key == wanted[j].key;
    if wanted[i] in out && wanted[j] in out {
      OneEntryPerKey(out, wanted[i], wanted[j]);
    }
    assert wanted[i] in missing || wanted[j] in missing;
    assert missing[|missing| - 1] in missing;
  }

  // ---------------------------------------------------------------- from module folders to entries

  function ReadAll(sections: seq<string>, disk: string -> ModuleFile): seq<Fragment> {
    if sections == [] then [] else [Fragment(sections[0], disk(sections[0]))] + ReadAll(sections[1..], disk)
  }

  function ReadModuleFragments(preferred: seq<string>, present: seq<string>, disk: string -> ModuleFile): seq<Fragment> {
    ReadAll(OrderSections(preferred, present), disk)
  }

  /** Folder names, and paths a pattern can match; a path is a key of the file, so it is there once. */
  ghost predicate DiskSound(sections: seq<string>, disk: string -> ModuleFile) {
    forall s :: s in sections ==>
      IsSection(s) && Distinct(disk(s).paths) && forall url :: url in disk(s).paths ==> IsUrl(url)
  }

  lemma {:induction false} EntriesMember(section: string, urls: seq<string>)
    ensures forall e :: e in EntriesOf(section, urls) <==> e.key in urls && e.item == Ref(PathRefFor(section, e.key))
    ensures Distinct(urls) ==> Distinct(EntriesOf(section, urls))
  {
    if urls != [] {
      EntriesMember(section, urls[1..]);
      assert urls == [urls[0]] + urls[1..];
      assert Distinct(urls) ==> urls[0] !in urls[1..];
    }
  }

  ghost predicate DeclaredBy(sections: seq<string>, disk: string -> ModuleFile, e: Entry, section: string) {
    section in sections && e.key in disk(section).paths && e.item == Ref(PathRefFor(section, e.key))
  }

  lemma {:induction false} WantedMember(sections: seq<string>, disk: string -> ModuleFile)
    ensures forall e :: e in Wanted(ReadAll(sections, disk)) <==> exists section :: DeclaredBy(sections, disk, e, section)
  {
    if sections != [] {
      var first, rest := sections[0], sections[1..];
      WantedMember(rest, disk);
      EntriesMember(first, disk(first).paths);
      assert ReadAll(sections, disk)[1..] == ReadAll(rest, disk);
      forall e ensures e in Wanted(ReadAll(sections, disk)) <==> exists section :: DeclaredBy(sections, disk, e, section) {
        assert DeclaredBy(sections, disk, e, first) <==> e in EntriesOf(first, disk(first).paths);
        assert forall s :: DeclaredBy(sections, disk, e, s) <==>
                           DeclaredBy(rest, disk, e, s) || (s == first && DeclaredBy(sections, disk, e, first));
      }
    }
  }

  lemma {:induction false} WantedIsSound(sections: seq<string>, disk: string -> ModuleFile)
    requires DiskSound(sections, disk) && Distinct(sections)
    ensures WantedSound(Wanted(ReadAll(sections, disk))) && Distinct(Wanted(ReadAll(sections, disk)))
  {
    hide PathRefFor, EntriesOf;
    WantedMember(sections, disk);
    if sections != [] {
      var first, rest := sections[0], sections[1..];
      WantedIsSound(rest, disk);
      WantedMember(rest, disk);
      EntriesMember(first, disk(first).paths);
      assert ReadAll(sections, disk)[1..] == ReadAll(rest, disk);
      var own, others := EntriesOf(first, disk(first).paths), Wanted(ReadAll(rest, disk));
      assert sections == [first] + rest && first !in rest && first in sections;
      forall e | e in others ensures e !in own {
        if e in own {
          NotInOthers(first, rest, disk, e);
        }
      }
      DistinctConcat(own, others);
    }
  }

  lemma {:induction false} NotInOthers(first: string, rest: seq<string>, disk: string -> ModuleFile, e: Entry)
    requires IsSection(first) && DiskSound(rest, disk) && first !in rest
    requires e.item == Ref(PathRefFor(first, e.key))
    ensures e !in Wanted(ReadAll(rest, disk))
  {
    WantedMember(rest, disk);
    forall section ensures !DeclaredBy(rest, disk, e, section) {
      if section in rest {
        PathRefsAreInjective(first, e.key, section, e.key);
      }
    }
  }

  /** A ref into a path of this module's fragment. */
  predicate PointsInto(section: string, e: Entry) {
    IsModule(e) && PREFIX + section + MIDDLE <= e.item.ref
  }

  lemma {:induction false} PointsIntoItsModule(section: string, other: string, url: string)
    requires IsSection(section) && IsSection(other) && IsUrl(url)
    ensures PointsInto(other, Entry(url, Ref(PathRefFor(section, url)))) <==> section == other
  {
    PathRefsAreRecognised(section, url);
    hide EncodePointer, Split, IsPathRef;
    var ref := PathRefFor(section, url);
    SectionOfRef(section, EncodePointer(url));
    if PREFIX + other + MIDDLE <= ref {
      var tail := ref[|PREFIX + other + MIDDLE|..];
      assert ref == PREFIX + other + MIDDLE + tail;
      SectionOfRef(other, tail);
    }
  }

  lemma {:induction false} SectionOfRef(section: string, tail: string)
    requires IsSection(section)
    ensures Split((PREFIX + section + MIDDLE + tail)[|PREFIX|..], '/')[0] == section
  {
    hide Split;
    SplitHead(section, MIDDLE[1..] + tail);
    assert (PREFIX + section + MIDDLE + tail)[|PREFIX|..] == section + "/" + (MIDDLE[1..] + tail);
  }

  /** Deleting a module's folder removes the entries that point into it, and touches nothing else. */
  lemma {:induction false} DeletingAModuleRemovesOnlyItsEntries(
    paths: seq<Entry>, preferred: seq<string>, present: seq<string>, disk: string -> ModuleFile, gone: string)
    requires RootSound(paths) && IsSection(gone)
    requires Distinct(OrderSections(preferred, present)) && DiskSound(OrderSections(preferred, present), disk)
    requires DistinctKeys(Wanted(ReadModuleFragments(preferred, present, disk)))
    ensures var before := Assembled(paths, Wanted(ReadModuleFragments(preferred, present, disk)));
            var left := Filter(present, (s: string) => s != gone);
            Assembled(before, Wanted(ReadModuleFragments(preferred, left, disk))) ==
            Filter(before, (e: Entry) => !PointsInto(gone, e))
  {
    hide OrderSections, Missing, Survivors, Wanted, ReadAll, WellKeyed, IsModule, PointsInto, DiskSound;
    var stays := (s: string) => s != gone;
    var sections := OrderSections(preferred, present);
    DeletingMovesNobody(preferred, present, stays);
    var fewer := Filter(sections, stays);
    FilterDistinct(sections, stays);
    var wanted, left := Wanted(ReadAll(sections, disk)), Wanted(ReadAll(fewer, disk));
    DiskStaysSound(sections, fewer, disk);
    WantedIsSound(sections, disk);
    WantedIsSound(fewer, disk);
    var before := Assembled(paths, wanted);
    AssembledIsSound(paths, wanted);
    ExactlyTheDeclaredPaths(paths, wanted);
    forall e ensures e in left <==> e in wanted && !PointsInto(gone, e) {
      LeftAfterDeleting(sections, disk, gone, e);
    }
    forall e | e in before && !IsModule(e) ensures !PointsInto(gone, e) {
      OnlyModulesPoint(gone, e);
    }
    OnlySurvivors(before, left, (e: Entry) => !PointsInto(gone, e));
  }

  lemma {:induction false} DiskStaysSound(sections: seq<string>, fewer: seq<string>, disk: string -> ModuleFile)
    requires DiskSound(sections, disk) && forall s :: s in fewer ==> s in sections
    ensures DiskSound(fewer, disk)
  {
  }

  lemma {:induction false} OnlyModulesPoint(section: string, e: Entry)
    requires !IsModule(e)
    ensures !PointsInto(section, e)
  {
  }

  lemma {:induction false} LeftAfterDeleting(sections: seq<string>, disk: string -> ModuleFile, gone: string, e: Entry)
    requires DiskSound(sections, disk) && IsSection(gone)
    ensures e in Wanted(ReadAll(Filter(sections, (s: string) => s != gone), disk)) <==>
            e in Wanted(ReadAll(sections, disk)) && !PointsInto(gone, e)
  {
    hide IsModule, PointsInto, PathRefFor, Wanted, ReadAll;
    var fewer := Filter(sections, (s: string) => s != gone);
    WantedMember(sections, disk);
    WantedMember(fewer, disk);
    forall section | DeclaredBy(sections, disk, e, section)
      ensures DeclaredBy(fewer, disk, e, section) <==> !PointsInto(gone, e)
    {
      assert e == Entry(e.key, Ref(PathRefFor(section, e.key)));
      PointsIntoItsModule(section, gone, e.key);
    }
    forall section | DeclaredBy(fewer, disk, e, section) ensures DeclaredBy(sections, disk, e, section) {
    }
  }

  /** With nothing missing, assembling only drops what is stale. */
  lemma {:induction false} OnlySurvivors(paths: seq<Entry>, wanted: seq<Entry>, keep: Entry -> bool)
    requires RootSound(paths) && WantedSound(wanted)
    requires forall e :: e in wanted ==> e in paths
    requires forall e :: e in paths ==> (keep(e) <==> !IsModule(e) || e in wanted)
    ensures Assembled(paths, wanted) == Filter(paths, keep)
  {
    hide WellKeyed, IsModule;
    ItemIsEntry(paths, wanted);
    FilterSame(paths, (e: Entry) => !Stale(wanted, e), keep);
    FilterNone(wanted, (e: Entry) => !Kept(paths, e.item));
  }

  // ---------------------------------------------------------------- tags

  function DeclaredTags(fragments: seq<Fragment>): seq<Tag> {
    if fragments == [] then [] else fragments[0].file.declaredTags + DeclaredTags(fragments[1..])
  }

  function UsedTags(fragments: seq<Fragment>): seq<string> {
    if fragments == [] then [] else fragments[0].file.tags + UsedTags(fragments[1..])
  }

  function TagNames(tags: seq<Tag>): seq<string> {
    if tags == [] then []
    else (if tags[0].Unnamed? then [] else [tags[0].name]) + TagNames(tags[1..])
  }

  /** The first tag of that name, or the bare name. */
  function FirstNamed(tags: seq<Tag>, name: string): Tag {
    if tags == [] then Bare(name)
    else if !tags[0].Unnamed? && tags[0].name == name then tags[0]
    else FirstNamed(tags[1..], name)
  }

  function NewTags(names: seq<string>, declared: seq<Tag>): seq<Tag> {
    if names == [] then [] else [FirstNamed(declared, names[0])] + NewTags(names[1..], declared)
  }

  function WantedNames(tags: seq<Tag>, fragments: seq<Fragment>): seq<string> {
    Filter(Once(TagNames(DeclaredTags(fragments)) + UsedTags(fragments)), (n: string) => n !in TagNames(tags))
  }

  function WithTags(tags: seq<Tag>, fragments: seq<Fragment>): seq<Tag> {
    tags + NewTags(WantedNames(tags, fragments), DeclaredTags(fragments))
  }

  lemma {:induction false} NamesConcat(a: seq<Tag>, b: seq<Tag>)
    ensures TagNames(a + b) == TagNames(a) + TagNames(b)
  {
    if a == [] {
      assert a + b == b;
    } else {
      assert (a + b)[1..] == a[1..] + b;
      NamesConcat(a[1..], b);
    }
  }

  /** The first of the declared tags with this name, or a bare name where none has it. */
  lemma {:induction false} FirstNamedExactly(tags: seq<Tag>, name: string)
    ensures || (FirstNamed(tags, name) == Bare(name) && forall t :: t in tags ==> t.Unnamed? || t.name != name)
            || exists k :: 0 <= k < |tags| && FirstNamed(tags, name) == tags[k] && !tags[k].Unnamed? && tags[k].name == name
                           && forall i :: 0 <= i < k ==> tags[i].Unnamed? || tags[i].name != name
  {
    if tags != [] {
      FirstNamedExactly(tags[1..], name);
      if tags[0].Unnamed? || tags[0].name != name {
        if k :| 0 <= k < |tags[1..]| && FirstNamed(tags[1..], name) == tags[1..][k] && !tags[1..][k].Unnamed?
                && tags[1..][k].name == name && forall i :: 0 <= i < k ==> tags[1..][i].Unnamed? || tags[1..][i].name != name {
          assert tags[k + 1] == tags[1..][k];
          forall i | 0 <= i < k + 1 ensures tags[i].Unnamed? || tags[i].name != name {
            assert i > 0 ==> tags[i] == tags[1..][i - 1];
          }
        }
      }
    }
  }

  lemma {:induction false} FirstNamedIsNamed(tags: seq<Tag>, name: string)
    ensures !FirstNamed(tags, name).Unnamed? && FirstNamed(tags, name).name == name
  {
    if tags != [] {
      FirstNamedIsNamed(tags[1..], name);
    }
  }

  lemma {:induction false} NewTagNames(names: seq<string>, declared: seq<Tag>)
    ensures TagNames(NewTags(names, declared)) == names
    ensures |NewTags(names, declared)| == |names|
    ensures forall i :: 0 <= i < |names| ==> NewTags(names, declared)[i] == FirstNamed(declared, names[i])
  {
    if names != [] {
      FirstNamedIsNamed(declared, names[0]);
      NewTagNames(names[1..], declared);
      assert names == [names[0]] + names[1..];
    }
  }

  /**
   * Every tag a module declares or uses ends up listed; those already there stay put, each new one is
   * listed once, as the first module to declare it describes it; and a second pass adds nothing.
   */
  lemma {:induction false} TagsAreListedOnce(tags: seq<Tag>, fragments: seq<Fragment>)
    ensures var after := WithTags(tags, fragments);
            && (forall n :: n in TagNames(after) <==>
                            n in TagNames(tags) || n in TagNames(DeclaredTags(fragments)) || n in UsedTags(fragments))
            && (Distinct(TagNames(tags)) ==> Distinct(TagNames(after)))
            && tags <= after
            && (forall i :: |tags| <= i < |after| ==>
                  !after[i].Unnamed? && after[i] == FirstNamed(DeclaredTags(fragments), after[i].name))
            && WithTags(after, fragments) == after
  {
    hide TagNames, FirstNamed, Once, NewTags;
    var names, declared := WantedNames(tags, fragments), DeclaredTags(fragments);
    var all := Once(TagNames(declared) + UsedTags(fragments));
    NamesConcat(tags, NewTags(names, declared));
    NewTagNames(names, declared);
    FilterDistinct(all, (n: string) => n !in TagNames(tags));
    var after := WithTags(tags, fragments);
    forall i | |tags| <= i < |after|
      ensures !after[i].Unnamed? && after[i] == FirstNamed(declared, after[i].name)
    {
      assert after[i] == NewTags(names, declared)[i - |tags|];
      FirstNamedIsNamed(declared, names[i - |tags|]);
    }
    FilterNone(all, (n: string) => n !in TagNames(after));
    assert WantedNames(after, fragments) == [];
    NoNewTags(declared);
    DistinctConcat(TagNames(tags), names);
  }

  lemma {:induction false} NoNewTags(declared: seq<Tag>)
    ensures NewTags([], declared) == []
  {
  }

  // ---------------------------------------------------------------- the document, edited in place

  class RootDocument {
    var hasPaths: bool
    var paths: seq<Entry>
    var tags: seq<Tag>

    /** Drops every entry pointing at a path no fragment declares, and returns the refs that stay. */
    method PruneStaleReferences(wanted: seq<Entry>) returns (kept: set<Item>)
      requires DistinctKeys(paths)
      modifies `paths
      ensures paths == Survivors(old(paths), wanted)
      ensures forall item :: item in kept <==> Kept(old(paths), item) && HasItem(wanted, item)
    {
      var stale: seq<Entry>;
      kept, stale := FindStale(paths, wanted);
      ghost var was := paths;
      FilterAll(was, (e: Entry) => e !in stale[..0]);
      for i := 0 to |stale|
        invariant DistinctKeys(paths)
        invariant paths == Filter(was, (e: Entry) => e !in stale[..i])
      {
        DropOne(was, stale, i);
        paths := Without(paths, stale[i].key);
        FilterKeys(was, (e: Entry) => e !in stale[..i + 1]);
      }
      assert stale[..|stale|] == stale;
      FilterSame(was, (e: Entry) => e !in stale[..|stale|], (e: Entry) => !Stale(wanted, e));
    }

    /** Sets an entry for every fragment path the root does not reference yet. */
    method AppendMissingPaths(wanted: seq<Entry>, kept: set<Item>)
      modifies `paths
      ensures paths == PutAll(old(paths), Filter(wanted, (e: Entry) => e.item !in kept))
    {
      ghost var todo := Filter(wanted, (e: Entry) => e.item !in kept);
      assert wanted[0..] == wanted;
      for i := 0 to |wanted|
        invariant PutAll(paths, Filter(wanted[i..], (e: Entry) => e.item !in kept)) == PutAll(old(paths), todo)
      {
        assert wanted[i..][1..] == wanted[i + 1..];
        ghost var rest := Filter(wanted[i + 1..], (e: Entry) => e.item !in kept);
        assert ([wanted[i]] + rest)[1..] == rest;
        if wanted[i].item !in kept {
          paths := Put(paths, wanted[i]);
        }
      }
    }

    /** Lists every tag a fragment uses or declares that the root does not list yet. */
    method AppendMissingTags(fragments: seq<Fragment>)
      modifies `tags
      ensures tags == WithTags(old(tags), fragments)
    {
      var declared, described := TagNames(tags), DeclaredTags(fragments);
      var wanted := Filter(Once(TagNames(described) + UsedTags(fragments)), (n: string) => n !in declared);
      assert wanted[..0] == [];
      for i := 0 to |wanted|
        invariant tags == old(tags) + NewTags(wanted[..i], described)
      {
        NewTagsSnoc(wanted[..i], wanted[i], described);
        assert wanted[..i + 1] == wanted[..i] + [wanted[i]];
        tags := tags + [FirstNamed(described, wanted[i])];
      }
      assert wanted[..|wanted|] == wanted;
    }

    /** The whole assembly; a root without a `paths` map is refused and left alone. */
    method Assemble(fragments: seq<Fragment>) returns (ok: bool)
      requires DistinctKeys(paths) && WantedSound(Wanted(fragments))
      modifies `paths, `tags
      ensures ok == hasPaths
      ensures ok ==> paths == Assembled(old(paths), Wanted(fragments)) && tags == WithTags(old(tags), fragments)
      ensures !ok ==> paths == old(paths) && tags == old(tags)
    {
      if !hasPaths {
        return false;
      }
      var wanted := Wanted(fragments);
      var kept := PruneStaleReferences(wanted);
      AppendMissingPaths(wanted, kept);
      forall e | e in wanted ensures e.item !in kept <==> !Kept(old(paths), e.item) {
        HasOwnItem(wanted, e);
      }
      FilterSame(wanted, (e: Entry) => e.item !in kept, (e: Entry) => !Kept(old(paths), e.item));
      AppendMissingTags(fragments);
      return true;
    }
  }

  /** One pass over the entries: which path refs stay declared, and which entries are stale. */
  method FindStale(paths: seq<Entry>, wanted: seq<Entry>) returns (kept: set<Item>, stale: seq<Entry>)
    requires DistinctKeys(paths)
    ensures forall item :: item in kept <==> Kept(paths, item) && HasItem(wanted, item)
    ensures forall e :: e in stale <==> e in paths && Stale(wanted, e)
    ensures Distinct(stale)
  {
    hide IsModule;
    kept, stale := {}, [];
    for i := 0 to |paths|
      invariant forall item :: item in kept <==> Kept(paths[..i], item) && HasItem(wanted, item)
      invariant forall e :: e in stale <==> e in paths[..i] && Stale(wanted, e)
      invariant Distinct(stale)
    {
      var e := paths[i];
      assert paths[..i + 1] == paths[..i] + [e];
      assert e !in paths[..i];
      forall item ensures Kept(paths[..i + 1], item) <==> Kept(paths[..i], item) || (e.item == item && IsModule(e)) {
        KeptSnoc(paths[..i], e, item);
      }
      if IsModule(e) {
        if HasItem(wanted, e.item) {
          kept := kept + {e.item};
        } else {
          stale := stale + [e];
        }
      }
    }
    assert paths[..|paths|] == paths;
  }

  lemma {:induction false} KeptSnoc(paths: seq<Entry>, e: Entry, item: Item)
    ensures Kept(paths + [e], item) <==> Kept(paths, item) || (e.item == item && IsModule(e))
  {
    hide IsModule;
    var all := paths + [e];
    if Kept(paths, item) {
      var i :| 0 <= i < |paths| && paths[i].item == item && IsModule(paths[i]);
      assert all[i] == paths[i];
    }
    if e.item == item && IsModule(e) {
      assert all[|paths|] == e;
    }
  }

  lemma {:induction false} DropOne(was: seq<Entry>, stale: seq<Entry>, i: nat)
    requires DistinctKeys(was) && Distinct(stale) && i < |stale| && stale[i] in was
    ensures Without(Filter(was, (e: Entry) => e !in stale[..i]), stale[i].key) ==
            Filter(was, (e: Entry) => e !in stale[..i + 1])
  {
    var left := Filter(was, (e: Entry) => e !in stale[..i]);
    FilterKeys(was, (e: Entry) => e !in stale[..i]);
    WithoutIsFilter(left, stale[i]);
    assert stale[..i + 1] == stale[..i] + [stale[i]];
    FilterTwice(was, (e: Entry) => e !in stale[..i], (e: Entry) => e != stale[i], (e: Entry) => e !in stale[..i + 1]);
  }

  lemma {:induction false} NewTagsSnoc(names: seq<string>, name: string, declared: seq<Tag>)
    ensures NewTags(names + [name], declared) == NewTags(names, declared) + [FirstNamed(declared, name)]
  {
    if names == [] {
      assert [name][1..] == [];
    } else {
      assert (names + [name])[1..] == names[1..] + [name];
      NewTagsSnoc(names[1..], name, declared);
    }
  }

  lemma {:induction false} HasOwnItem(wanted: seq<Entry>, e: Entry)
    requires e in wanted
    ensures HasItem(wanted, e.item)
  {
  }
}
