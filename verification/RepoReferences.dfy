/** Which path citations still name something in the repository: the precomputed tail index. */
module RepoReferences {
  import opened Basics
  import opened JsonTree
  import opened Text

  /** The paths git lists, without the mirror tree that would vouch for deleted files. */
  function Tracked(listing: string): seq<string> {
    Filter(Split(listing, '\n'), (file: string) => file != "" && !StartsWith(file, ".2brain/"))
  }

  /** Of the listed lines, the ones that name a file outside `.2brain/`. */
  lemma {:induction false} TrackedExactly(lines: seq<string>, file: string)
    requires lines != [] && forall i :: 0 <= i < |lines| ==> '\n' !in lines[i]
    ensures file in Tracked(Join(lines, '\n')) <==> file in lines && file != "" && !(".2brain/" <= file)
  {
    SplitJoin(lines, '\n');
  }

  /** The plain relation the index stands for: some run of whole segments of the path spells the token. */
  ghost predicate Names(token: string, file: string) {
    Occurs("/" + token + "/", "/" + file + "/")
  }

  // ---------------------------------------------------------------- the index

  ghost predicate IsTail(token: string, segments: seq<string>, below: nat) {
    exists k :: 0 <= k < below && k < |segments| && token == Join(segments[k..], '/')
  }

  /** Some run of consecutive segments, ending before `upTo` or at the very end, spells the token. */
  ghost predicate IsSlice(token: string, segments: seq<string>, upTo: nat) {
    exists b :: 1 <= b <= |segments| && (b < upTo || b == |segments|) && IsTail(token, segments[..b], b)
  }

  method AddTails(targets: set<string>, candidate: string) returns (added: set<string>)
    ensures forall t :: t in added <==> t in targets || IsTail(t, Split(candidate, '/'), |candidate| + 1)
  {
    var segments := Split(candidate, '/');
    SplitLength(candidate);
    added := targets;
    for index := 0 to |segments|
      invariant forall t :: t in added <==> t in targets || IsTail(t, segments, index)
    {
      ghost var before := added;
      added := added + {Join(segments[index..], '/')};
      forall t ensures t in added <==> t in targets || IsTail(t, segments, index + 1) {
        OneMoreTail(t, segments, index);
      }
    }
  }

  method TrackedTargets(listing: string) returns (targets: set<string>, roots: set<string>)
    ensures forall t :: t in targets <==> exists file :: file in Tracked(listing) && Names(t, file)
    ensures forall r :: r in roots <==> exists file :: file in Tracked(listing) && r == Split(file, '/')[0]
  {
    var files := Tracked(listing);
    targets := {};
    roots := set file | file in files :: Split(file, '/')[0];
    for i := 0 to |files|
      invariant forall t :: t in targets <==> exists j :: 0 <= j < i && Names(t, files[j])
    {
      ghost var before := targets;
      targets := AddPath(targets, files[i]);
    }
  }

  /** One file's share of the index: its own tails, then those of every directory on the way to it. */
  method AddPath(targets: set<string>, file: string) returns (added: set<string>)
    ensures forall t :: t in added <==> t in targets || Names(t, file)
  {
    var segments := Split(file, '/');
    added := AddTails(targets, file);
    ghost var whole := added;
    forall t ensures t in added <==> t in targets || IsSlice(t, segments, 1) {
      SplitLength(file);
      WholePathFirst(t, segments, |file| + 1);
    }
    for index := 1 to |segments|
      invariant forall t :: t in added <==> t in targets || IsSlice(t, segments, index)
    {
      var directory := Join(segments[..index], '/');
      ghost var before := added;
      added := AddTails(added, directory);
      forall t ensures t in added <==> t in targets || IsSlice(t, segments, index + 1) {
        SplitJoin(segments[..index], '/');
        SplitLength(directory);
        OneMoreDirectory(t, segments, index, |directory| + 1);
      }
    }
    forall t ensures t in added <==> t in targets || Names(t, file) {
      SliceNames(t, file);
    }
  }

  lemma {:induction false} SplitLength(s: string)
    ensures |Split(s, '/')| <= |s| + 1
  {
    if s != [] {
      SplitLength(s[1..]);
    }
  }

  lemma {:induction false} OneMoreTail(t: string, segments: seq<string>, index: nat)
    requires index < |segments|
    ensures IsTail(t, segments, index + 1) <==> IsTail(t, segments, index) || t == Join(segments[index..], '/')
  {
  }

  lemma {:induction false} AllTails(t: string, segments: seq<string>, bound: nat)
    requires bound >= |segments|
    ensures IsTail(t, segments, bound) <==> IsTail(t, segments, |segments|)
  {
  }

  lemma {:induction false} WholePathFirst(t: string, segments: seq<string>, bound: nat)
    requires bound >= |segments| >= 1
    ensures IsTail(t, segments, bound) <==> IsSlice(t, segments, 1)
  {
    assert segments[..|segments|] == segments;
    AllTails(t, segments, bound);
  }

  lemma {:induction false} OneMoreDirectory(t: string, segments: seq<string>, index: nat, bound: nat)
    requires 1 <= index < |segments| && bound >= index
    ensures IsSlice(t, segments, index + 1) <==> IsSlice(t, segments, index) || IsTail(t, segments[..index], bound)
  {
    AllTails(t, segments[..index], bound);
  }

  // ---------------------------------------------------------------- slices of segments and text between slashes

  /** Every segment behind a slash, and one closing slash. */
  function Rooted(segments: seq<string>): (r: string)
    ensures |r| >= 1 && r[0] == '/' && r[|r| - 1] == '/'
  {
    if segments == [] then "/" else "/" + segments[0] + Rooted(segments[1..])
  }

  ghost predicate Slashless(segments: seq<string>) {
    forall i :: 0 <= i < |segments| ==> '/' !in segments[i]
  }

  lemma {:induction false} RootedIsJoined(segments: seq<string>)
    requires segments != []
    ensures Rooted(segments) == "/" + Join(segments, '/') + "/"
  {
    if |segments| == 1 {
      assert Rooted(segments[1..]) == "/";
    } else {
      RootedIsJoined(segments[1..]);
      var tail := Join(segments[1..], '/');
      calc {
        Rooted(segments);
        "/" + segments[0] + ("/" + tail + "/");
        "/" + (segments[0] + "/" + tail) + "/";
      }
    }
  }

  lemma {:induction false} RootedConcat(a: seq<string>, b: seq<string>)
    ensures Rooted(a + b) == Rooted(a)[..|Rooted(a)| - 1] + Rooted(b)
  {
    if a == [] {
      assert a + b == b;
    } else {
      assert (a + b)[1..] == a[1..] + b;
      RootedConcat(a[1..], b);
    }
  }

  lemma {:induction false} SliceOccurs(left: seq<string>, mid: seq<string>, right: seq<string>)
    ensures Occurs(Rooted(mid), Rooted(left + (mid + right)))
  {
    hide Occurs, Rooted;
    RootedConcat(left, mid + right);
    RootedConcat(mid, right);
    OccursBetween(Rooted(left)[..|Rooted(left)| - 1], Rooted(mid), Rooted(right));
  }

  lemma {:induction false} OccursBetween(before: string, needle: string, after: string)
    requires needle != [] && after != [] && needle[|needle| - 1] == after[0]
    ensures Occurs(needle, before + (needle[..|needle| - 1] + after))
  {
    var hay := before + (needle[..|needle| - 1] + after);
    forall k | 0 <= k < |needle| ensures hay[|before| + k] == needle[k] {
    }
    assert hay[|before|..|before| + |needle|] == needle;
    assert OccursAt(needle, hay, |before|);
  }

  /** Slash-free segments are read back from a common start of two rooted texts. */
  lemma {:induction false} PrefixSegments(tokens: seq<string>, segments: seq<string>)
    requires Slashless(tokens) && Slashless(segments)
    requires Rooted(tokens) <= Rooted(segments)
    ensures tokens <= segments
  {
    if tokens != [] {
      assert |Rooted(tokens)| >= 2;
      FirstSegment(tokens[0], Rooted(tokens[1..]), segments[0], Rooted(segments[1..]));
      PrefixSegments(tokens[1..], segments[1..]);
    }
  }

  lemma {:induction false} FirstSegment(a: string, restA: string, b: string, restB: string)
    requires '/' !in a && '/' !in b
    requires restA != [] && restA[0] == '/' && restB != [] && restB[0] == '/'
    requires "/" + a + restA <= "/" + b + restB
    ensures a == b && restA <= restB
  {
    var l, r := "/" + a + restA, "/" + b + restB;
    assert l[1 + |a|] == '/' && r[1 + |b|] == '/';
    assert forall k :: 0 <= k < |a| ==> l[1 + k] == a[k] && a[k] in a;
    assert forall k :: 0 <= k < |b| ==> r[1 + k] == b[k] && b[k] in b;
    assert |a| == |b|;
    assert a == l[1..1 + |a|] == r[1..1 + |b|] == b;
    assert restA == l[1 + |a|..] && restB == r[1 + |a|..];
  }

  lemma {:induction false} OccurrenceIsSlice(tokens: seq<string>, segments: seq<string>, i: nat) returns (a: nat)
    requires Slashless(tokens) && Slashless(segments) && tokens != []
    requires OccursAt(Rooted(tokens), Rooted(segments), i)
    ensures a + |tokens| <= |segments| && segments[a..a + |tokens|] == tokens
  {
    hide OccursAt, Slashless;
    assert |Rooted(tokens)| >= 2;
    Fits(Rooted(tokens), Rooted(segments), i);
    if i == 0 {
      a := 0;
      PrefixSegments(tokens, segments);
    } else {
      TailSlashless(segments);
      SkipFirst(Rooted(tokens), segments[0], Rooted(segments[1..]), i);
      var inner := OccurrenceIsSlice(tokens, segments[1..], i - 1 - |segments[0]|);
      a := inner + 1;
      assert segments[a..a + |tokens|] == segments[1..][inner..inner + |tokens|];
    }
  }

  lemma {:induction false} Fits(needle: string, hay: string, i: nat)
    requires OccursAt(needle, hay, i)
    ensures i + |needle| <= |hay|
    ensures i == 0 ==> needle <= hay
  {
    assert hay[i..i + |needle|] == needle;
  }

  lemma {:induction false} TailSlashless(segments: seq<string>)
    requires Slashless(segments)
    ensures segments != [] ==> '/' !in segments[0] && Slashless(segments[1..])
  {
  }

  /** An occurrence that starts with a slash after the first one starts after the first segment. */
  lemma {:induction false} SkipFirst(needle: string, head: string, rest: string, i: nat)
    requires needle != [] && needle[0] == '/' && '/' !in head && i > 0
    requires OccursAt(needle, "/" + head + rest, i)
    ensures i >= 1 + |head| && OccursAt(needle, rest, i - 1 - |head|)
  {
    var hay := "/" + head + rest;
    assert hay[i] == hay[i..i + |needle|][0] == '/';
    assert forall k :: 0 <= k < |head| ==> hay[1 + k] == head[k] && head[k] in head;
    assert i >= 1 + |head|;
    var j := i - 1 - |head|;
    assert rest[j..j + |needle|] == hay[i..i + |needle|];
  }

  lemma {:induction false} SliceNames(t: string, file: string)
    ensures IsSlice(t, Split(file, '/'), |Split(file, '/')|) <==> Names(t, file)
  {
    hide Occurs, Rooted, IsSlice, Split, Join;
    var segments := Split(file, '/');
    RootedIsJoined(segments);
    JoinSplit(file, '/');
    if Names(t, file) {
      NamedIsSlice(t, segments);
    }
    if IsSlice(t, segments, |segments|) {
      SliceIsNamed(t, segments);
    }
  }

  lemma {:induction false} NamedIsSlice(t: string, segments: seq<string>)
    requires segments != [] && Slashless(segments) && Occurs("/" + t + "/", Rooted(segments))
    ensures IsSlice(t, segments, |segments|)
  {
    hide OccursAt, Rooted, Slashless;
    var tokens := Split(t, '/');
    RootedIsJoined(tokens);
    JoinSplit(t, '/');
    SplitSlashless(t);
    var i: nat :| OccursAt(Rooted(tokens), Rooted(segments), i) by { OccursSomewhere("/" + t + "/", Rooted(segments)); }
    var a := OccurrenceIsSlice(tokens, segments, i);
    var b := a + |tokens|;
    assert segments[..b][a..] == tokens;
    assert IsTail(t, segments[..b], b);
  }

  lemma {:induction false} OccursSomewhere(needle: string, hay: string)
    requires Occurs(needle, hay)
    ensures exists i: nat :: OccursAt(needle, hay, i)
  {
  }

  lemma {:induction false} SplitSlashless(s: string)
    ensures Slashless(Split(s, '/'))
  {
  }

  lemma {:induction false} SliceIsNamed(t: string, segments: seq<string>)
    requires IsSlice(t, segments, |segments|)
    ensures Occurs("/" + t + "/", Rooted(segments))
  {
    SliceHasEnds(t, segments);
    var a, b :| 0 <= a < b <= |segments| && t == Join(segments[a..b], '/');
    hide Occurs, Rooted, IsSlice, Join;
    SliceOccurs(segments[..a], segments[a..b], segments[b..]);
    assert segments == segments[..a] + (segments[a..b] + segments[b..]);
    RootedIsJoined(segments[a..b]);
  }

  lemma {:induction false} SliceHasEnds(t: string, segments: seq<string>)
    requires IsSlice(t, segments, |segments|)
    ensures exists a, b :: 0 <= a < b <= |segments| && t == Join(segments[a..b], '/')
  {
    var b :| 1 <= b <= |segments| && IsTail(t, segments[..b], b);
    var k :| 0 <= k < b && t == Join(segments[..b][k..], '/');
    assert segments[..b][k..] == segments[k..b];
  }

  // ---------------------------------------------------------------- citations

  const SPELLINGS: seq<string> :=
    ["", ".ts", ".tsx", ".js", ".vue", ".json", ".yaml", ".yml", ".md", "/index.ts", "/index.js"]

  predicate Resolves(targets: set<string>, token: string) {
    exists suffix :: suffix in SPELLINGS && token + suffix in targets
  }

  lemma {:induction false} SpellingsAre(suffix: string)
    ensures suffix in SPELLINGS <==>
            suffix in {"", ".ts", ".tsx", ".js", ".vue", ".json", ".yaml", ".yml", ".md", "/index.ts", "/index.js"}
  {
  }

  /** A token resolves as it is, or as one of the files it could stand for. */
  lemma {:induction false} ResolvesExactly(targets: set<string>, token: string)
    ensures Resolves(targets, token) <==>
            exists suffix :: token + suffix in targets &&
              suffix in {"", ".ts", ".tsx", ".js", ".vue", ".json", ".yaml", ".yml", ".md", "/index.ts", "/index.js"}
  {
    forall suffix {
      SpellingsAre(suffix);
    }
  }

  /** A citation resolves exactly when one of its spellings names a run of segments of a tracked path. */
  method CheckCitation(listing: string, token: string) returns (found: bool)
    ensures found <==> (exists suffix, file ::
                          suffix in SPELLINGS && file in Tracked(listing) && Names(token + suffix, file))
  {
    var targets, _ := TrackedTargets(listing);
    found := Resolves(targets, token);
    assert found ==> exists suffix :: suffix in SPELLINGS && token + suffix in targets;
  }

  /** A directory of a cited path is a citation that resolves too. */
  lemma {:induction false} DirectoriesResolve(directory: string, rest: string, file: string)
    requires Names(directory + "/" + rest, file)
    ensures Names(directory, file) && Names(rest, file)
  {
    var whole, hay := "/" + (directory + "/" + rest) + "/", "/" + file + "/";
    var i :| OccursAt(whole, hay, i);
    OccursInside("/" + directory + "/", whole, hay, i, 0);
    OccursInside("/" + rest + "/", whole, hay, i, |directory| + 1);
  }

  lemma {:induction false} OccursInside(needle: string, whole: string, hay: string, i: nat, offset: nat)
    requires OccursAt(whole, hay, i)
    requires offset + |needle| <= |whole| && whole[offset..offset + |needle|] == needle
    ensures OccursAt(needle, hay, i + offset)
  {
    var j := i + offset;
    forall k | 0 <= k < |needle| ensures hay[j..j + |needle|][k] == needle[k] {
      assert whole[offset + k] == whole[offset..offset + |needle|][k];
      assert hay[i..i + |whole|][offset + k] == hay[j + k];
    }
  }
}
