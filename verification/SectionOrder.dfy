/** The order a bundle lists its per-module sections in. */
module SectionOrder {
  import opened Basics

  /** JavaScript's order on strings, character by character. */
  predicate Before(a: string, b: string) {
    if a == [] then true
    else if b == [] then false
    else a[0] < b[0] || (a[0] == b[0] && Before(a[1..], b[1..]))
  }

  function Insert(x: string, sorted: seq<string>): (r: seq<string>)
    ensures forall y :: y in r <==> y == x || y in sorted
  {
    if sorted == [] || Before(x, sorted[0]) then [x] + sorted
    else [sorted[0]] + Insert(x, sorted[1..])
  }

  function Sort(s: seq<string>): seq<string> {
    if s == [] then [] else Insert(s[0], Sort(s[1..]))
  }

  /** The preferred sections that exist, then every other one alphabetically. */
  function OrderSections(preferred: seq<string>, present: seq<string>): seq<string> {
    Filter(preferred, (s: string) => s in present) + Sort(Filter(present, (s: string) => s !in preferred))
  }

  ghost predicate Ascending(s: seq<string>) {
    forall i, j :: 0 <= i < j < |s| ==> Before(s[i], s[j])
  }

  lemma {:induction false} SharedStart(a: string, b: string, k: nat)
    requires k < |a| && k < |b|
    ensures k > 0 && a[..k] == b[..k] ==> a[0] == b[0]
  {
    if k > 0 {
      assert a[..k][0] == a[0] && b[..k][0] == b[0];
    }
  }

  /** One name comes before another when it begins it, or has the smaller character where they first differ. */
  lemma {:induction false} BeforeIsAlphabetical(a: string, b: string)
    ensures Before(a, b) <==> a <= b || exists k :: 0 <= k < |a| && k < |b| && a[..k] == b[..k] && a[k] < b[k]
  {
    if a != [] && b != [] && a[0] == b[0] {
      BeforeIsAlphabetical(a[1..], b[1..]);
      if k :| 0 <= k < |a[1..]| && k < |b[1..]| && a[1..][..k] == b[1..][..k] && a[1..][k] < b[1..][k] {
        assert a[..k + 1] == [a[0]] + a[1..][..k] && b[..k + 1] == [b[0]] + b[1..][..k];
        assert a[k + 1] < b[k + 1];
      }
      if k :| 0 <= k < |a| && k < |b| && a[..k] == b[..k] && a[k] < b[k] {
        assert a[1..][..k - 1] == a[..k][1..] && b[1..][..k - 1] == b[..k][1..];
        assert a[1..][k - 1] < b[1..][k - 1];
      }
      assert a <= b <==> a[1..] <= b[1..] by {
        assert a == [a[0]] + a[1..] && b == [b[0]] + b[1..];
      }
    } else if a != [] && b != [] && a[0] < b[0] {
      assert a[..0] == b[..0];
    } else if a != [] && b != [] {
      forall k | 0 <= k < |a| && k < |b| {
        SharedStart(a, b, k);
      }
    }
  }

  lemma {:induction false} BeforeIsTotal(a: string, b: string)
    ensures Before(a, b) || Before(b, a)
  {
    if a != [] && b != [] {
      BeforeIsTotal(a[1..], b[1..]);
    }
  }

  lemma {:induction false} BeforeIsTransitive(a: string, b: string, c: string)
    requires Before(a, b) && Before(b, c)
    ensures Before(a, c)
  {
    if a != [] && a[0] == b[0] == c[0] {
      BeforeIsTransitive(a[1..], b[1..], c[1..]);
    }
  }

  lemma {:induction false} BeforeIsAntisymmetric(a: string, b: string)
    requires Before(a, b) && Before(b, a)
    ensures a == b
  {
    if a != [] {
      BeforeIsAntisymmetric(a[1..], b[1..]);
      assert a == [a[0]] + a[1..] && b == [b[0]] + b[1..];
    }
  }

  lemma {:induction false} InsertSorts(x: string, sorted: seq<string>)
    requires Ascending(sorted)
    ensures Ascending(Insert(x, sorted))
  {
    hide Before;
    if sorted != [] {
      assert sorted == [sorted[0]] + sorted[1..];
      if Before(x, sorted[0]) {
        forall i | 0 <= i < |sorted| ensures Before(x, sorted[i]) {
          if i > 0 {
            BeforeIsTransitive(x, sorted[0], sorted[i]);
          }
        }
      } else {
        BeforeIsTotal(x, sorted[0]);
        InsertSorts(x, sorted[1..]);
        var rest := Insert(x, sorted[1..]);
        forall i | 0 <= i < |rest| ensures Before(sorted[0], rest[i]) {
          assert rest[i] in rest;
        }
      }
    }
  }

  lemma {:induction false} InsertKeeps(x: string, sorted: seq<string>)
    ensures multiset(Insert(x, sorted)) == multiset{x} + multiset(sorted)
  {
    hide Before;
    if sorted != [] && !Before(x, sorted[0]) {
      assert sorted == [sorted[0]] + sorted[1..];
      InsertKeeps(x, sorted[1..]);
    }
  }

  lemma {:induction false} SortSorts(s: seq<string>)
    ensures Ascending(Sort(s)) && multiset(Sort(s)) == multiset(s)
  {
    if s != [] {
      assert s == [s[0]] + s[1..];
      SortSorts(s[1..]);
      InsertSorts(s[0], Sort(s[1..]));
      InsertKeeps(s[0], Sort(s[1..]));
    }
  }

  /**
   * Every section on disk is bundled once, exactly when the preference does not name an existing one
   * twice; the sections it does not name come last and in alphabetical order.
   */
  lemma {:induction false} BundlesEverySectionOnce(preferred: seq<string>, present: seq<string>)
    requires Distinct(present)
    ensures multiset(OrderSections(preferred, present)) == multiset(present)
            <==> Distinct(Filter(preferred, (s: string) => s in present))
    ensures var known := Filter(preferred, (s: string) => s in present);
            && known <= OrderSections(preferred, present)
            && Ascending(OrderSections(preferred, present)[|known|..])
  {
    var known := Filter(preferred, (s: string) => s in present);
    var extra := Filter(present, (s: string) => s !in preferred);
    var named := Filter(present, (s: string) => s in preferred);
    SortSorts(extra);
    FilterPartitions(present, (s: string) => s in preferred, (s: string) => s !in preferred);
    assert multiset(present) == multiset(named) + multiset(extra);
    assert OrderSections(preferred, present)[|known|..] == Sort(extra);
    FilterDistinct(present, (s: string) => s in preferred);
    if Distinct(known) {
      SameElementsPermute(known, named);
    }
    if multiset(known) + multiset(extra) == multiset(present) {
      forall x ensures multiset(known)[x] == multiset(named)[x] {
        assert (multiset(known) + multiset(extra))[x] == (multiset(named) + multiset(extra))[x];
      }
      DistinctCounts(named);
      CountsAreDistinct(known);
    }
  }

  // ---------------------------------------------------------------- deleting a module

  lemma {:induction false} InsertFirst(x: string, s: seq<string>)
    requires forall y :: y in s ==> Before(x, y)
    ensures Insert(x, s) == [x] + s
  {
  }

  lemma {:induction false} FilterInsert(x: string, sorted: seq<string>, keep: string -> bool)
    requires Ascending(sorted)
    ensures Filter(Insert(x, sorted), keep) ==
            if keep(x) then Insert(x, Filter(sorted, keep)) else Filter(sorted, keep)
  {
    if sorted == [] {
      assert Filter([x], keep) == if keep(x) then [x] else [];
    } else if Before(x, sorted[0]) {
      assert ([x] + sorted)[1..] == sorted;
      forall y | y in Filter(sorted, keep) ensures Before(x, y) {
        var i :| 0 <= i < |sorted| && sorted[i] == y;
        if i > 0 {
          BeforeIsTransitive(x, sorted[0], y);
        }
      }
      InsertFirst(x, Filter(sorted, keep));
    } else {
      FilterInsert(x, sorted[1..], keep);
      var rest := Insert(x, sorted[1..]);
      assert ([sorted[0]] + rest)[1..] == rest;
      assert ([sorted[0]] + Filter(sorted[1..], keep))[1..] == Filter(sorted[1..], keep);
    }
  }

  lemma {:induction false} FilterSort(s: seq<string>, keep: string -> bool)
    ensures Filter(Sort(s), keep) == Sort(Filter(s, keep))
  {
    if s != [] {
      FilterSort(s[1..], keep);
      SortSorts(s[1..]);
      FilterInsert(s[0], Sort(s[1..]), keep);
    }
  }

  /** Deleting modules moves no other section: the order is the old one without them. */
  lemma {:induction false} DeletingMovesNobody(preferred: seq<string>, present: seq<string>, stays: string -> bool)
    ensures OrderSections(preferred, Filter(present, stays)) == Filter(OrderSections(preferred, present), stays)
  {
    hide Filter, Sort;
    var here := Filter(present, stays);
    var known, extra := Filter(preferred, (s: string) => s in present), Filter(present, (s: string) => s !in preferred);
    FilterConcat(known, Sort(extra), stays);
    FilterTwice(preferred, (s: string) => s in present, stays, (s: string) => s in here);
    FilterSort(extra, stays);
    FilterTwice(present, (s: string) => s !in preferred, stays, (s: string) => s !in preferred && stays(s));
    FilterTwice(present, stays, (s: string) => s !in preferred, (s: string) => s !in preferred && stays(s));
  }
}
