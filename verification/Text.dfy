/** Cutting text at a separator and putting it back together. */
module Text {

  /** What a JavaScript regular expression takes for the end of a line. */
  const LINE_BREAKS: set<char> := {'\n', '\r', '\U{2028}', '\U{2029}'}

  const SMALL := "abcdefghijklmnopqrstuvwxyz"
  const CAPITAL := "ABCDEFGHIJKLMNOPQRSTUVWXYZ"
  const DIGITS := "0123456789"

  predicate IsLetterOrDigit(c: char) {
    c in SMALL || c in CAPITAL || c in DIGITS
  }

  predicate StartsWith(s: string, prefix: string) {
    prefix <= s
  }

  /** JavaScript's `split` on one character: never empty, separators gone. */
  function Split(s: string, sep: char): (parts: seq<string>)
    ensures |parts| >= 1
    ensures forall i :: 0 <= i < |parts| ==> sep !in parts[i]
  {
    if s == [] then [""]
    else
      var rest := Split(s[1..], sep);
      if s[0] == sep then [""] + rest else [[s[0]] + rest[0]] + rest[1..]
  }

  /** JavaScript's `join` with one character. */
  function Join(parts: seq<string>, sep: char): string {
    if parts == [] then ""
    else if |parts| == 1 then parts[0]
    else parts[0] + [sep] + Join(parts[1..], sep)
  }

  lemma {:induction false} JoinSplit(s: string, sep: char)
    ensures Join(Split(s, sep), sep) == s
  {
    if s != [] {
      JoinSplit(s[1..], sep);
      var rest := Split(s[1..], sep);
      if s[0] == sep {
        assert ([""] + rest)[1..] == rest;
      } else {
        var whole := [[s[0]] + rest[0]] + rest[1..];
        assert whole[1..] == rest[1..];
        assert Join(whole, sep) == [s[0]] + Join(rest, sep);
      }
    }
  }

  /** A text without the separator is one part. */
  lemma {:induction false} SplitPlain(s: string, sep: char)
    requires sep !in s
    ensures Split(s, sep) == [s]
  {
    if s != [] {
      SplitPlain(s[1..], sep);
      assert [s[0]] + s[1..] == s;
    }
  }

  /** Splitting works part by part. */
  lemma {:induction false} SplitCons(head: string, tail: string, sep: char)
    requires sep !in head
    ensures Split(head + [sep] + tail, sep) == [head] + Split(tail, sep)
  {
    var s := head + [sep] + tail;
    if head == [] {
      assert s[1..] == tail;
    } else {
      assert s[1..] == head[1..] + [sep] + tail;
      SplitCons(head[1..], tail, sep);
      assert [head[0]] + head[1..] == head;
    }
  }

  lemma {:induction false} SplitJoin(parts: seq<string>, sep: char)
    requires parts != []
    requires forall i :: 0 <= i < |parts| ==> sep !in parts[i]
    ensures Split(Join(parts, sep), sep) == parts
  {
    if |parts| == 1 {
      SplitPlain(parts[0], sep);
    } else {
      SplitJoin(parts[1..], sep);
      SplitCons(parts[0], Join(parts[1..], sep), sep);
    }
  }

  ghost predicate OccursAt(needle: string, hay: string, i: int) {
    0 <= i <= |hay| - |needle| && hay[i..i + |needle|] == needle
  }

  ghost predicate Occurs(needle: string, hay: string) {
    exists i :: OccursAt(needle, hay, i)
  }

  /** JavaScript's `indexOf`: the first occurrence, or -1. */
  function IndexOf(hay: string, needle: string): int {
    if needle <= hay then 0
    else if hay == "" then -1
    else
      var rest := IndexOf(hay[1..], needle);
      if rest < 0 then -1 else rest + 1
  }

  lemma {:induction false} OccursInTail(hay: string, needle: string, i: int)
    requires hay != "" && i > 0
    ensures OccursAt(needle, hay, i) <==> OccursAt(needle, hay[1..], i - 1)
  {
    if 0 <= i <= |hay| - |needle| {
      assert hay[1..][i - 1..i - 1 + |needle|] == hay[i..i + |needle|];
    }
  }

  lemma {:induction false} IndexOfIsFirst(hay: string, needle: string)
    ensures IndexOf(hay, needle) == -1 || OccursAt(needle, hay, IndexOf(hay, needle))
    ensures forall i :: OccursAt(needle, hay, i) ==> IndexOf(hay, needle) != -1 && IndexOf(hay, needle) <= i
  {
    if needle <= hay {
      assert hay[0..|needle|] == needle;
    } else if hay != "" {
      hide OccursAt;
      IndexOfIsFirst(hay[1..], needle);
      StartIsPrefix(hay, needle);
      forall i | OccursAt(needle, hay, i)
        ensures IndexOf(hay, needle) != -1 && IndexOf(hay, needle) <= i
      {
        OccursInTail(hay, needle, i);
      }
      if IndexOf(hay, needle) != -1 {
        OccursInTail(hay, needle, IndexOf(hay, needle));
      }
    }
  }

  lemma {:induction false} StartIsPrefix(hay: string, needle: string)
    requires !(needle <= hay)
    ensures forall i :: OccursAt(needle, hay, i) ==> i > 0
  {
    assert |needle| <= |hay| ==> hay[0..|needle|] == hay[..|needle|];
  }
}
