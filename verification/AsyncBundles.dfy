/** The two AsyncAPI bundles, merged section by section. */
module AsyncBundles {
  import opened Basics

  /** One declared server, channel, operation, message or schema. */
  datatype Entry = Entry(key: string, value: string)

  /** A map of a document, or nothing where it declares none. */
  type Section = Option<seq<Entry>>

  /** `servers`, `channels`, `operations`, `components.messages` and `components.schemas`, in that order. */
  type Document = seq<Section>

  const MERGED_PATHS := 5

  function EntriesOf(map_: Section): seq<Entry> {
    if map_.None? then [] else map_.value
  }

  predicate HasKey(entries: seq<Entry>, key: string) {
    exists i :: 0 <= i < |entries| && entries[i].key == key
  }

  ghost predicate DistinctKeys(entries: seq<Entry>) {
    forall i, j :: 0 <= i < j < |entries| ==> entries[i].key != entries[j].key
  }

  /** Each entry is pushed unless its key is taken; then the merge is refused. */
  function PushAll(existing: seq<Entry>, items: seq<Entry>): Option<seq<Entry>>
    decreases |items|
  {
    if items == [] then Some(existing)
    else if HasKey(existing, items[0].key) then None
    else PushAll(existing + [items[0]], items[1..])
  }

  function MergeMaps(existing: Section, source: Section): Option<Section> {
    if source.None? then Some(existing)
    else if existing.None? then Some(source)
    else
      match PushAll(existing.value, source.value)
      case None => None
      case Some(all) => Some(Some(all))
  }

  function MergeFrom(target: Document, source: Document, path: nat): Option<Document>
    requires |target| == |source| == MERGED_PATHS && path <= MERGED_PATHS
    ensures MergeFrom(target, source, path).Some? ==> |MergeFrom(target, source, path).value| == MERGED_PATHS
    decreases MERGED_PATHS - path
  {
    if path == MERGED_PATHS then Some(target)
    else
      match MergeMaps(target[path], source[path])
      case None => None
      case Some(merged) => MergeFrom(target[path := merged], source, path + 1)
  }

  /** Every merged path of one document into the target. */
  function MergeDocument(target: Document, source: Document): Option<Document>
    requires |target| == |source| == MERGED_PATHS
    ensures MergeDocument(target, source).Some? ==> |MergeDocument(target, source).value| == MERGED_PATHS
  {
    MergeFrom(target, source, 0)
  }

  /** A document for every section, or nothing where its own fragments already clash. */
  type Loader = string -> Option<Document>

  ghost predicate LoadsFive(load: Loader, sections: seq<string>) {
    forall s :: s in sections && load(s).Some? ==> |load(s).value| == MERGED_PATHS
  }

  function MergeSections(document: Document, sections: seq<string>, load: Loader): Option<Document>
    requires |document| == MERGED_PATHS && LoadsFive(load, sections)
    ensures MergeSections(document, sections, load).Some? ==> |MergeSections(document, sections, load).value| == MERGED_PATHS
    decreases |sections|
  {
    if sections == [] then Some(document)
    else
      match load(sections[0])
      case None => None
      case Some(source) =>
        match MergeDocument(document, source)
        case None => None
        case Some(merged) => MergeSections(merged, sections[1..], load)
  }

  datatype Scope = Shared | Backend

  function SectionsInScope(scope: Scope, order: seq<string>, shared: set<string>): seq<string> {
    if scope == Backend then order else Filter(order, (s: string) => s in shared)
  }

  /** The backend sees every section in order, a client those that are shared, in the same order. */
  lemma {:induction false} ScopeHolds(order: seq<string>, shared: set<string>)
    ensures SectionsInScope(Backend, order, shared) == order
    ensures forall s :: s in SectionsInScope(Shared, order, shared) <==> s in order && s in shared
  {
  }

  // ---------------------------------------------------------------- the target document, pushed into

  class Target {
    var maps: Document

    ghost predicate Valid()
      reads this
    {
      |maps| == MERGED_PATHS
    }

    constructor (root: Document)
      requires |root| == MERGED_PATHS
      ensures Valid() && maps == root
    {
      maps := root;
    }

    /** Merges one map in place; on a key claimed twice it stops where it is, as the thrown error does. */
    method MergeInto(path: nat, source: Section) returns (ok: bool)
      requires Valid() && path < MERGED_PATHS
      modifies this
      ensures Valid()
      ensures ok <==> MergeMaps(old(maps)[path], source).Some?
      ensures ok ==> maps == old(maps)[path := MergeMaps(old(maps)[path], source).value]
    {
      if source.None? {
        return true;
      }
      if maps[path].None? {
        maps := maps[path := source];
        return true;
      }
      var items := source.value;
      assert items[0..] == items;
      for i := 0 to |items|
        invariant Valid() && maps[path].Some? && maps == old(maps)[path := maps[path]]
        invariant PushAll(maps[path].value, items[i..]) == PushAll(old(maps)[path].value, items)
      {
        assert items[i..][1..] == items[i + 1..];
        if HasKey(maps[path].value, items[i].key) {
          return false;
        }
        maps := maps[path := Some(maps[path].value + [items[i]])];
      }
      return true;
    }

    method Merge(source: Document) returns (ok: bool)
      requires Valid() && |source| == MERGED_PATHS
      modifies this
      ensures Valid()
      ensures ok <==> MergeDocument(old(maps), source).Some?
      ensures ok ==> maps == MergeDocument(old(maps), source).value
    {
      for path := 0 to MERGED_PATHS
        invariant Valid() && MergeFrom(maps, source, path) == MergeDocument(old(maps), source)
      {
        var merged := MergeInto(path, source[path]);
        if !merged {
          return false;
        }
      }
      return true;
    }
  }

  /** The bundler with its cache: the second request for a scope costs nothing. */
  class Bundler {
    const root: Document
    const order: seq<string>
    const shared: set<string>
    const load: Loader
    var compiled: map<Scope, Document>

    ghost predicate Valid()
      reads this
    {
      && |root| == MERGED_PATHS && LoadsFive(load, order)
      && forall scope :: scope in compiled ==> BundleOf(scope) == Some(compiled[scope])
    }

    ghost function BundleOf(scope: Scope): Option<Document>
      requires |root| == MERGED_PATHS && LoadsFive(load, order)
    {
      MergeSections(root, SectionsInScope(scope, order, shared), load)
    }

    constructor (root: Document, order: seq<string>, shared: set<string>, load: Loader)
      requires |root| == MERGED_PATHS && LoadsFive(load, order)
      ensures Valid()
      ensures this.root == root && this.order == order && this.shared == shared && this.load == load
    {
      this.root, this.order, this.shared, this.load, compiled := root, order, shared, load, map[];
    }

    method Compile(scope: Scope) returns (bundle: Option<Document>)
      requires Valid()
      modifies this
      ensures Valid()
      ensures bundle == BundleOf(scope)
      ensures compiled == if bundle.Some? then old(compiled)[scope := bundle.value] else old(compiled)
    {
      if scope in compiled {
        assert old(compiled)[scope := compiled[scope]] == old(compiled);
        return Some(compiled[scope]);
      }
      var sections := SectionsInScope(scope, order, shared);
      var target := new Target(root);
      assert sections[0..] == sections;
      for i := 0 to |sections|
        invariant target.Valid() && fresh(target) && unchanged(this)
        invariant MergeSections(target.maps, sections[i..], load) == BundleOf(scope)
      {
        assert sections[i..][1..] == sections[i + 1..];
        var source := load(sections[i]);
        if source.None? {
          return None;
        }
        var ok := target.Merge(source.value);
        if !ok {
          return None;
        }
      }
      bundle := Some(target.maps);
      compiled := compiled[scope := target.maps];
    }
  }

  // ---------------------------------------------------------------- when a merge is refused, and what it yields

  /** A parsed document: five maps, none with a key of its own twice. */
  ghost predicate Parsed(document: Document) {
    |document| == MERGED_PATHS && forall p :: 0 <= p < MERGED_PATHS ==> DistinctKeys(EntriesOf(document[p]))
  }

  lemma {:induction false} PushesExactlyWhenDistinct(existing: seq<Entry>, items: seq<Entry>)
    requires DistinctKeys(existing)
    ensures PushAll(existing, items).Some? <==> DistinctKeys(existing + items)
    ensures PushAll(existing, items).Some? ==> PushAll(existing, items).value == existing + items
    decreases |items|
  {
    if items == [] {
      assert existing + items == existing;
    } else {
      var all := existing + items;
      assert all[|existing|] == items[0];
      if HasKey(existing, items[0].key) {
        var i :| 0 <= i < |existing| && existing[i].key == items[0].key;
        assert all[i] == existing[i];
      } else {
        PushesExactlyWhenDistinct(existing + [items[0]], items[1..]);
        assert existing + [items[0]] + items[1..] == all;
      }
    }
  }

  lemma {:induction false} MergesExactlyWhenDistinct(existing: Section, source: Section)
    requires DistinctKeys(EntriesOf(existing)) && DistinctKeys(EntriesOf(source))
    ensures MergeMaps(existing, source).Some? <==> DistinctKeys(EntriesOf(existing) + EntriesOf(source))
    ensures MergeMaps(existing, source).Some? ==>
              EntriesOf(MergeMaps(existing, source).value) == EntriesOf(existing) + EntriesOf(source)
  {
    hide DistinctKeys;
    assert EntriesOf(existing) + [] == EntriesOf(existing) && [] + EntriesOf(source) == EntriesOf(source);
    if existing.Some? && source.Some? {
      PushesExactlyWhenDistinct(existing.value, source.value);
    }
  }

  lemma {:induction false} MergeFromPath(target: Document, source: Document, path: nat)
    requires Parsed(target) && Parsed(source) && path <= MERGED_PATHS
    ensures MergeFrom(target, source, path).Some? <==>
            forall p :: path <= p < MERGED_PATHS ==> DistinctKeys(EntriesOf(target[p]) + EntriesOf(source[p]))
    ensures MergeFrom(target, source, path).Some? ==>
              var merged := MergeFrom(target, source, path).value;
              && Parsed(merged)
              && forall p :: 0 <= p < MERGED_PATHS ==>
                   EntriesOf(merged[p]) == EntriesOf(target[p]) + (if path <= p then EntriesOf(source[p]) else [])
    decreases MERGED_PATHS - path
  {
    hide DistinctKeys, MergeMaps, EntriesOf;
    if path == MERGED_PATHS {
      assert forall p :: 0 <= p < MERGED_PATHS ==> EntriesOf(target[p]) + [] == EntriesOf(target[p]);
    } else {
      MergesExactlyWhenDistinct(target[path], source[path]);
      var merged := MergeMaps(target[path], source[path]);
      if merged.Some? {
        MergeFromPath(target[path := merged.value], source, path + 1);
        assert EntriesOf(merged.value) + [] == EntriesOf(merged.value);
      }
    }
  }

  /** All that is declared for one path: the root's entries, then each section's in turn. */
  function Declared(root: seq<Entry>, sections: seq<string>, load: Loader, path: nat): seq<Entry>
    requires LoadsFive(load, sections) && path < MERGED_PATHS
    decreases |sections|
  {
    if sections == [] then root
    else Declared(root + (if load(sections[0]).None? then [] else EntriesOf(load(sections[0]).value[path])),
                  sections[1..], load, path)
  }

  ghost predicate AllParsed(load: Loader, sections: seq<string>) {
    forall s :: s in sections && load(s).Some? ==> Parsed(load(s).value)
  }

  ghost predicate AllLoad(load: Loader, sections: seq<string>) {
    forall s :: s in sections ==> load(s).Some?
  }

  /** Prefixes of a list with distinct keys have distinct keys. */
  lemma {:induction false} DeclaredStartsWith(root: seq<Entry>, sections: seq<string>, load: Loader, path: nat)
    requires LoadsFive(load, sections) && path < MERGED_PATHS
    ensures root <= Declared(root, sections, load, path)
    decreases |sections|
  {
    if sections != [] {
      DeclaredStartsWith(root + (if load(sections[0]).None? then [] else EntriesOf(load(sections[0]).value[path])),
                         sections[1..], load, path);
    }
  }

  lemma {:induction false} PrefixDistinct(a: seq<Entry>, b: seq<Entry>)
    requires a <= b && DistinctKeys(b)
    ensures DistinctKeys(a)
  {
    assert forall i :: 0 <= i < |a| ==> a[i] == b[i];
  }

  /**
   * A bundle builds exactly when every section loads and no key is claimed twice on any path, by
   * whichever owners; and then nothing is lost, overwritten or moved: each map is the sections' own
   * maps one after the other.
   */
  lemma {:induction false} BuildsExactlyWhenNoKeyIsClaimedTwice(root: Document, sections: seq<string>, load: Loader)
    requires Parsed(root) && LoadsFive(load, sections) && AllParsed(load, sections)
    ensures MergeSections(root, sections, load).Some? <==>
            && AllLoad(load, sections)
            && forall p :: 0 <= p < MERGED_PATHS ==> DistinctKeys(Declared(EntriesOf(root[p]), sections, load, p))
    ensures MergeSections(root, sections, load).Some? ==>
              forall p :: 0 <= p < MERGED_PATHS ==>
                EntriesOf(MergeSections(root, sections, load).value[p]) == Declared(EntriesOf(root[p]), sections, load, p)
    decreases |sections|
  {
    hide EntriesOf, MergeFrom, DistinctKeys;
    if sections != [] {
      assert sections == [sections[0]] + sections[1..];
      if load(sections[0]).Some? {
        var source := load(sections[0]).value;
        MergeFromPath(root, source, 0);
        if MergeDocument(root, source).Some? {
          BuildsExactlyWhenNoKeyIsClaimedTwice(MergeDocument(root, source).value, sections[1..], load);
        } else {
          var p :| 0 <= p < MERGED_PATHS && !DistinctKeys(EntriesOf(root[p]) + EntriesOf(source[p]));
          ClashStays(EntriesOf(root[p]), EntriesOf(source[p]), sections, load, p);
        }
      }
    }
  }

  lemma {:induction false} ClashStays(root: seq<Entry>, own: seq<Entry>, sections: seq<string>, load: Loader, path: nat)
    requires LoadsFive(load, sections) && path < MERGED_PATHS && sections != [] && load(sections[0]).Some?
    requires own == EntriesOf(load(sections[0]).value[path]) && !DistinctKeys(root + own)
    ensures !DistinctKeys(Declared(root, sections, load, path))
  {
    hide DistinctKeys, EntriesOf;
    DeclaredStartsWith(root + own, sections[1..], load, path);
    if DistinctKeys(Declared(root, sections, load, path)) {
      PrefixDistinct(root + own, Declared(root, sections, load, path));
    }
  }

  // ---------------------------------------------------------------- the public bundle inside the full one

  /** The first list is the second with some entries left out. */
  predicate Subsequence(a: seq<Entry>, b: seq<Entry>) {
    if a == [] then true
    else if b == [] then false
    else (a[0] == b[0] && Subsequence(a[1..], b[1..])) || Subsequence(a, b[1..])
  }

  lemma {:induction false} SubsequenceSelf(a: seq<Entry>)
    ensures Subsequence(a, a)
  {
    if a != [] {
      SubsequenceSelf(a[1..]);
    }
  }

  lemma {:induction false} SubsequenceAppend(a: seq<Entry>, b: seq<Entry>, more: seq<Entry>)
    requires Subsequence(a, b)
    ensures Subsequence(a + more, b + more) && Subsequence(a, b + more)
  {
    if b == [] {
      assert a + more == more && b + more == more;
      SubsequenceSelf(more);
    } else {
      assert (b + more)[1..] == b[1..] + more;
      if a == [] {
        SubsequenceAppend([], b[1..], more);
        assert [] + more == more;
        assert Subsequence(more, b[1..] + more);
        SubsequenceSkip(more, b + more);
      } else if a[0] == b[0] && Subsequence(a[1..], b[1..]) {
        assert (a + more)[1..] == a[1..] + more;
        SubsequenceAppend(a[1..], b[1..], more);
      } else {
        SubsequenceAppend(a, b[1..], more);
        SubsequenceSkip(a + more, b + more);
      }
    }
  }

  lemma {:induction false} SubsequenceSkip(a: seq<Entry>, b: seq<Entry>)
    requires b != [] && Subsequence(a, b[1..])
    ensures Subsequence(a, b)
  {
  }

  lemma {:induction false} SubsequenceMember(a: seq<Entry>, b: seq<Entry>)
    requires Subsequence(a, b)
    ensures forall i :: 0 <= i < |a| ==> HasKey(b, a[i].key) && a[i] in b
  {
    if a != [] {
      assert b == [b[0]] + b[1..];
      if a[0] == b[0] && Subsequence(a[1..], b[1..]) {
        SubsequenceMember(a[1..], b[1..]);
        forall i | 0 <= i < |a| ensures HasKey(b, a[i].key) && a[i] in b {
          if i > 0 {
            assert a[i] == a[1..][i - 1];
            KeyInTail(b, a[i].key);
          }
        }
      } else {
        SubsequenceMember(a, b[1..]);
        forall i | 0 <= i < |a| ensures HasKey(b, a[i].key) && a[i] in b {
          KeyInTail(b, a[i].key);
        }
      }
    }
  }

  lemma {:induction false} KeyInTail(b: seq<Entry>, key: string)
    requires b != [] && HasKey(b[1..], key)
    ensures HasKey(b, key)
  {
    var i :| 0 <= i < |b| - 1 && b[1..][i].key == key;
    assert b[i + 1].key == key;
  }

  lemma {:induction false} SubsequenceDistinct(a: seq<Entry>, b: seq<Entry>)
    requires Subsequence(a, b) && DistinctKeys(b)
    ensures DistinctKeys(a)
  {
    if a != [] {
      if a[0] == b[0] && Subsequence(a[1..], b[1..]) {
        SubsequenceDistinct(a[1..], b[1..]);
        SubsequenceMember(a[1..], b[1..]);
        forall i | 0 < i < |a| ensures a[0].key != a[i].key {
          assert a[i] == a[1..][i - 1];
          var k :| 0 <= k < |b| - 1 && b[1..][k].key == a[i].key;
          assert b[k + 1].key == a[i].key;
        }
      } else {
        SubsequenceDistinct(a, b[1..]);
      }
    }
  }

  lemma {:induction false} FewerSectionsDeclareLess(
    few: seq<Entry>, all: seq<Entry>, sections: seq<string>, keep: string -> bool, load: Loader, path: nat)
    requires LoadsFive(load, sections) && path < MERGED_PATHS && Subsequence(few, all)
    ensures LoadsFive(load, Filter(sections, keep))
    ensures Subsequence(Declared(few, Filter(sections, keep), load, path), Declared(all, sections, load, path))
    decreases |sections|
  {
    if sections != [] {
      var head := sections[0];
      var own := if load(head).None? then [] else EntriesOf(load(head).value[path]);
      SubsequenceAppend(few, all, own);
      assert forall s :: s in sections[1..] ==> s in sections;
      if keep(head) {
        FewerSectionsDeclareLess(few + own, all + own, sections[1..], keep, load, path);
        assert Filter(sections, keep)[1..] == Filter(sections[1..], keep);
      } else {
        FewerSectionsDeclareLess(few, all + own, sections[1..], keep, load, path);
      }
    }
  }

  /**
   * The public bundle is a part of the full one: whenever the full bundle builds so does the public
   * one, and each of its maps is the full one with the backend-only entries left out, in the same
   * order and with the same values.
   */
  lemma {:induction false} PublicBundleIsASubdocument(root: Document, order: seq<string>, shared: set<string>, load: Loader)
    requires Parsed(root) && LoadsFive(load, order) && AllParsed(load, order)
    requires MergeSections(root, SectionsInScope(Backend, order, shared), load).Some?
    ensures LoadsFive(load, SectionsInScope(Shared, order, shared))
    ensures MergeSections(root, SectionsInScope(Shared, order, shared), load).Some?
    ensures forall p :: 0 <= p < MERGED_PATHS ==>
              Subsequence(EntriesOf(MergeSections(root, SectionsInScope(Shared, order, shared), load).value[p]),
                          EntriesOf(MergeSections(root, SectionsInScope(Backend, order, shared), load).value[p]))
  {
    hide EntriesOf, MergeSections, DistinctKeys, Declared, Subsequence;
    var keep := (s: string) => s in shared;
    var public := Filter(order, keep);
    BuildsExactlyWhenNoKeyIsClaimedTwice(root, order, load);
    forall p | 0 <= p < MERGED_PATHS
      ensures LoadsFive(load, public)
      ensures Subsequence(Declared(EntriesOf(root[p]), public, load, p), Declared(EntriesOf(root[p]), order, load, p))
      ensures DistinctKeys(Declared(EntriesOf(root[p]), public, load, p))
    {
      SubsequenceSelf(EntriesOf(root[p]));
      FewerSectionsDeclareLess(EntriesOf(root[p]), EntriesOf(root[p]), order, keep, load, p);
      SubsequenceDistinct(Declared(EntriesOf(root[p]), public, load, p), Declared(EntriesOf(root[p]), order, load, p));
    }
    BuildsExactlyWhenNoKeyIsClaimedTwice(root, public, load);
  }
}
