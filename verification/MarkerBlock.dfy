/** Generated blocks spliced between marker comments of an otherwise hand-written page. */
module MarkerBlock {
  import opened Basics
  import opened Text

  datatype Block = Block(start: string, end: string, body: string)

  function Fenced(body: string): string {
    "\n\n" + body + "\n\n"
  }

  /** One block put between its markers, wherever they first occur; nothing when one is missing. */
  function SpliceOne(page: string, block: Block): Option<string> {
    var from, to := IndexOf(page, block.start), IndexOf(page, block.end);
    if from == -1 || to == -1 then None
    else
      IndexOfIsFirst(page, block.start);
      IndexOfIsFirst(page, block.end);
      Some(page[..from + |block.start|] + Fenced(block.body) + page[to..])
  }

  function Spliced(page: string, blocks: seq<Block>): Option<string>
    decreases |blocks|
  {
    if blocks == [] then Some(page)
    else
      match SpliceOne(page, blocks[0])
      case None => None
      case Some(next) => Spliced(next, blocks[1..])
  }

  /** The splice loop: the page after every block, or nothing as soon as a marker is missing. */
  method ApplyMarkerBlocks(original: string, blocks: seq<Block>) returns (result: Option<string>)
    ensures result == Spliced(original, blocks)
  {
    var page := original;
    assert blocks[0..] == blocks;
    for i := 0 to |blocks|
      invariant Spliced(page, blocks[i..]) == Spliced(original, blocks)
    {
      assert blocks[i..][1..] == blocks[i + 1..];
      var block := blocks[i];
      var from, to := IndexOf(page, block.start), IndexOf(page, block.end);
      if from == -1 || to == -1 {
        return None;
      }
      IndexOfIsFirst(page, block.start);
      IndexOfIsFirst(page, block.end);
      page := page[..from + |block.start|] + Fenced(block.body) + page[to..];
    }
    result := Some(page);
  }

  // ---------------------------------------------------------------- where a marker can occur

  /** A marker is some text on one line. */
  ghost predicate IsMarker(m: string) {
    m != "" && '\n' !in m
  }

  /** An occurrence in a text lies wholly in one of the two parts a newline separates. */
  lemma {:induction false} NotAcross(m: string, left: string, right: string, i: int)
    requires IsMarker(m) && OccursAt(m, left + "\n" + right, i)
    ensures (i + |m| <= |left| && OccursAt(m, left, i)) || (i > |left| && OccursAt(m, right, i - |left| - 1))
  {
    var all := left + "\n" + right;
    assert all[i..i + |m|] == m;
    forall p | i <= p < i + |m| ensures all[p] in m {
      assert all[p] == all[i..i + |m|][p - i];
      assert all[p] == m[p - i];
    }
    assert all[|left|] == '\n';
    if i + |m| <= |left| {
      assert left[i..i + |m|] == m;
    } else {
      assert right[i - |left| - 1..i - |left| - 1 + |m|] == all[i..i + |m|];
    }
  }

  /** Around a block that does not contain it, a marker occurs before or after. */
  lemma {:induction false} BeforeOrAfter(m: string, left: string, body: string, right: string, i: int)
    requires IsMarker(m) && !Occurs(m, body) && OccursAt(m, left + Fenced(body) + right, i)
    ensures (i + |m| <= |left| && OccursAt(m, left, i))
            || (i >= |left + Fenced(body)| && OccursAt(m, right, i - |left + Fenced(body)|))
  {
    hide OccursAt;
    var afterBody := "\n" + right;
    var afterFirst := "\n" + (body + ("\n" + afterBody));
    assert left + Fenced(body) + right == left + "\n" + afterFirst;
    NotAcross(m, left, afterFirst, i);
    if i > |left| {
      var j := i - |left| - 1;
      assert afterFirst == "" + "\n" + (body + ("\n" + afterBody));
      NotAcross(m, "", body + ("\n" + afterBody), j);
      TooLong(m, "", j);
      assert body + ("\n" + afterBody) == body + "\n" + afterBody;
      NotAcross(m, body, afterBody, j - 1);
      assert afterBody == "" + "\n" + right;
      NotAcross(m, "", right, j - 1 - |body| - 1);
      TooLong(m, "", j - 1 - |body| - 1);
    }
  }

  lemma {:induction false} TooLong(m: string, text: string, i: int)
    requires |m| > |text|
    ensures !OccursAt(m, text, i)
  {
  }

  lemma {:induction false} OccursLeft(m: string, left: string, right: string, i: int)
    requires OccursAt(m, left, i)
    ensures OccursAt(m, left + right, i)
  {
    assert (left + right)[i..i + |m|] == left[i..i + |m|];
  }

  lemma {:induction false} OccursRight(m: string, left: string, right: string, i: int)
    requires OccursAt(m, right, i)
    ensures OccursAt(m, left + right, |left| + i)
  {
    assert (left + right)[|left| + i..|left| + i + |m|] == right[i..i + |m|];
  }

  // ---------------------------------------------------------------- one block

  ghost predicate CleanBlock(block: Block) {
    IsMarker(block.start) && IsMarker(block.end) && !Occurs(block.start, block.body) && !Occurs(block.end, block.body)
  }

  /** The first start marker stays where it was. */
  lemma {:induction false} StartStays(page: string, block: Block)
    requires CleanBlock(block) && SpliceOne(page, block).Some?
    ensures IndexOf(SpliceOne(page, block).value, block.start) == IndexOf(page, block.start)
  {
    hide OccursAt, IndexOf, Fenced;
    var from, to := IndexOf(page, block.start), IndexOf(page, block.end);
    IndexOfIsFirst(page, block.start);
    IndexOfIsFirst(page, block.end);
    FitsIn(block.start, page, from);
    FitsIn(block.end, page, to);
    StartIn(page, from, to, block);
  }

  lemma {:induction false} StartIn(page: string, from: nat, to: nat, block: Block)
    requires IsMarker(block.start) && !Occurs(block.start, block.body)
    requires from + |block.start| <= |page| && to <= |page|
    requires OccursAt(block.start, page, from) && forall i :: OccursAt(block.start, page, i) ==> from <= i
    ensures IndexOf(page[..from + |block.start|] + Fenced(block.body) + page[to..], block.start) == from
  {
    hide OccursAt, Fenced;
    var cut, m, fenced, right := from + |block.start|, block.start, Fenced(block.body), page[to..];
    var left := page[..cut];
    Within(m, page, from, 0, cut);
    assert page[0..cut] == left;
    OccursLeft(m, left, fenced + right, from);
    Regroup(left, fenced, right);
    IndexOfIsFirst(left + fenced + right, m);
    forall i | OccursAt(m, left + fenced + right, i) ensures i >= from {
      BeforeOrAfter(m, left, block.body, right, i);
      if i + |m| <= cut {
        OccursLeft(m, left, page[cut..], i);
        assert left + page[cut..] == page;
      }
    }
  }

  lemma {:induction false} FitsIn(m: string, text: string, i: int)
    requires OccursAt(m, text, i)
    ensures 0 <= i <= |text| - |m|
  {
  }

  /** An occurrence between two positions is an occurrence in the slice between them. */
  lemma {:induction false} Within(m: string, text: string, i: int, lo: nat, hi: nat)
    requires lo <= hi <= |text| && lo <= i && i + |m| <= hi
    ensures OccursAt(m, text, i) <==> OccursAt(m, text[lo..hi], i - lo)
  {
    var a, b := text[lo..hi][i - lo..i - lo + |m|], text[i..i + |m|];
    assert forall k :: 0 <= k < |m| ==> a[k] == b[k];
    assert a == b;
  }

  /** The end marker moves behind the block, unless its first occurrence came before the start's end. */
  lemma {:induction false} EndMoves(page: string, block: Block)
    requires CleanBlock(block) && SpliceOne(page, block).Some?
    ensures var from, to := IndexOf(page, block.start), IndexOf(page, block.end);
            IndexOf(SpliceOne(page, block).value, block.end) ==
            if to + |block.end| <= from + |block.start| then to
            else from + |block.start| + |Fenced(block.body)|
  {
    hide OccursAt, IndexOf, Fenced;
    var from, to := IndexOf(page, block.start), IndexOf(page, block.end);
    IndexOfIsFirst(page, block.start);
    IndexOfIsFirst(page, block.end);
    FitsIn(block.start, page, from);
    FitsIn(block.end, page, to);
    EndIn(page, from + |block.start|, to, block);
  }

  lemma {:induction false} EndIn(page: string, cut: nat, to: nat, block: Block)
    requires IsMarker(block.end) && !Occurs(block.end, block.body) && cut <= |page| && to <= |page| - |block.end|
    requires OccursAt(block.end, page, to) && forall i :: OccursAt(block.end, page, i) ==> to <= i
    ensures IndexOf(page[..cut] + Fenced(block.body) + page[to..], block.end) ==
            if to + |block.end| <= cut then to else cut + |Fenced(block.body)|
  {
    hide OccursAt, Fenced;
    var left, fenced, right, m := page[..cut], Fenced(block.body), page[to..], block.end;
    var next := left + fenced + right;
    forall i | OccursAt(m, next, i) ensures (i >= to && i + |m| <= cut) || i >= cut + |fenced| {
      BeforeOrAfter(m, left, block.body, right, i);
      if i + |m| <= cut {
        OccursLeft(m, left, page[cut..], i);
        assert left + page[cut..] == page;
      }
    }
    IndexOfIsFirst(next, m);
    if to + |m| <= cut {
      Within(m, page, to, 0, cut);
      assert page[0..cut] == left;
      OccursLeft(m, left, fenced + right, to);
      Regroup(left, fenced, right);
    } else {
      Within(m, page, to, to, |page|);
      assert page[to..|page|] == right;
      OccursRight(m, left + fenced, right, 0);
    }
  }

  /** The first end marker lies before the end of the first start marker. */
  predicate EndsFirst(page: string, block: Block) {
    IndexOf(page, block.end) + |block.end| <= IndexOf(page, block.start) + |block.start|
  }

  /** Splicing again changes nothing exactly when the end marker does not come first; it then still does, on a longer page. */
  lemma {:induction false} SplicingTwiceIsOnce(page: string, block: Block)
    requires CleanBlock(block) && SpliceOne(page, block).Some?
    ensures SpliceOne(SpliceOne(page, block).value, block) == SpliceOne(page, block) <==> !EndsFirst(page, block)
    ensures EndsFirst(SpliceOne(page, block).value, block) <==> EndsFirst(page, block)
    ensures EndsFirst(page, block) ==> |SpliceOne(page, block).value| > |page|
  {
    hide OccursAt, IndexOf;
    StartStays(page, block);
    EndMoves(page, block);
    IndexOfIsFirst(page, block.start);
    IndexOfIsFirst(page, block.end);
    FitsIn(block.start, page, IndexOf(page, block.start));
    FitsIn(block.end, page, IndexOf(page, block.end));
    TwoCuts(page, block, SpliceOne(page, block).value);
  }

  lemma {:induction false} TwoCuts(page: string, block: Block, next: string)
    requires SpliceOne(page, block) == Some(next)
    requires IndexOf(page, block.start) + |block.start| <= |page| && block.end != ""
    requires 0 <= IndexOf(page, block.end) <= |page| && 0 <= IndexOf(page, block.start)
    requires IndexOf(next, block.start) == IndexOf(page, block.start)
    requires var from, to := IndexOf(page, block.start), IndexOf(page, block.end);
             IndexOf(next, block.end) == if to + |block.end| <= from + |block.start| then to
                                         else from + |block.start| + |Fenced(block.body)|
    ensures SpliceOne(next, block) == Some(next) <==> !EndsFirst(page, block)
    ensures EndsFirst(next, block) <==> EndsFirst(page, block)
    ensures EndsFirst(page, block) ==> |next| > |page|
  {
    hide IndexOf, OccursAt, Fenced;
    var cut, to, fenced := IndexOf(page, block.start) + |block.start|, IndexOf(page, block.end), Fenced(block.body);
    assert next == page[..cut] + fenced + page[to..];
    assert next[..cut] == page[..cut];
    if to + |block.end| > cut {
      assert next[cut + |fenced|..] == page[to..];
    } else {
      assert |next[..cut] + fenced + next[to..]| > |next|;
    }
  }

  /** The page after k runs of the generator. */
  function AfterRuns(page: string, block: Block, k: nat): Option<string> {
    if k == 0 then Some(page)
    else
      match AfterRuns(page, block, k - 1)
      case None => None
      case Some(p) => SpliceOne(p, block)
  }

  /** With the end marker first, every run makes the page longer; otherwise the first run is the last to change it. */
  lemma {:induction false} GrowsOnEveryRun(page: string, block: Block, k: nat)
    requires CleanBlock(block) && SpliceOne(page, block).Some?
    ensures AfterRuns(page, block, k).Some? && AfterRuns(page, block, k + 1).Some?
    ensures EndsFirst(page, block) ==> |AfterRuns(page, block, k + 1).value| > |AfterRuns(page, block, k).value|
    ensures !EndsFirst(page, block) ==> AfterRuns(page, block, k + 1) == SpliceOne(page, block)
  {
    hide SpliceOne, EndsFirst;
    EveryRunFinds(page, block, k);
    var now := AfterRuns(page, block, k).value;
    SplicingTwiceIsOnce(now, block);
    if k > 0 {
      GrowsOnEveryRun(page, block, k - 1);
      SplicingTwiceIsOnce(page, block);
    }
  }

  /** Both markers are found again on every run, in the order they had. */
  lemma {:induction false} EveryRunFinds(page: string, block: Block, k: nat)
    requires CleanBlock(block) && SpliceOne(page, block).Some?
    ensures AfterRuns(page, block, k).Some? && SpliceOne(AfterRuns(page, block, k).value, block).Some?
    ensures EndsFirst(AfterRuns(page, block, k).value, block) <==> EndsFirst(page, block)
  {
    if k > 0 {
      EveryRunFinds(page, block, k - 1);
      var was := AfterRuns(page, block, k - 1).value;
      StartStays(was, block);
      EndMoves(was, block);
      SplicingTwiceIsOnce(was, block);
      IndexOfIsFirst(was, block.start);
      IndexOfIsFirst(was, block.end);
    }
  }

  // ---------------------------------------------------------------- a page of several blocks

  /** A page with marker pairs in it: hand-written text, and what stands between two markers. */
  datatype Piece = Gap(text: string) | Pair(start: string, inner: string, end: string)

  function RenderPiece(p: Piece): string {
    if p.Gap? then p.text else p.start + p.inner + p.end
  }

  function Render(pieces: seq<Piece>): string {
    if pieces == [] then "" else RenderPiece(pieces[0]) + Render(pieces[1..])
  }

  ghost predicate UniqueIn(m: string, text: string) {
    forall i, j :: OccursAt(m, text, i) && OccursAt(m, text, j) ==> i == j
  }

  ghost predicate IsMarkerOf(pieces: seq<Piece>, m: string) {
    exists p :: p in pieces && p.Pair? && (m == p.start || m == p.end)
  }

  /** Every marker is a piece of one line, and the page contains it once. */
  ghost predicate Marked(pieces: seq<Piece>) {
    forall m :: IsMarkerOf(pieces, m) ==> IsMarker(m) && UniqueIn(m, Render(pieces))
  }

  predicate Matches(p: Piece, block: Block) {
    p.Pair? && p.start == block.start && p.end == block.end
  }

  /** The piece with its block's body inside, if one of the blocks is meant for it. */
  function Filled(p: Piece, blocks: seq<Block>): Piece {
    if blocks == [] then p
    else if Matches(p, blocks[0]) then Pair(p.start, Fenced(blocks[0].body), p.end)
    else Filled(p, blocks[1..])
  }

  function FillAll(pieces: seq<Piece>, blocks: seq<Block>): (r: seq<Piece>)
    ensures |r| == |pieces| && forall i :: 0 <= i < |r| ==> r[i] == Filled(pieces[i], blocks)
  {
    if pieces == [] then [] else [Filled(pieces[0], blocks)] + FillAll(pieces[1..], blocks)
  }

  /** Each block is meant for a pair of the page, no two for the same, and no body contains a marker. */
  ghost predicate Fit(pieces: seq<Piece>, blocks: seq<Block>) {
    && (forall b :: b in blocks ==> exists p :: p in pieces && Matches(p, b))
    && (forall i, j :: 0 <= i < j < |blocks| ==> blocks[i].start != blocks[j].start)
    && (forall b, m :: b in blocks && IsMarkerOf(pieces, m) ==> !Occurs(m, b.body))
  }

  lemma {:induction false} RenderConcat(a: seq<Piece>, b: seq<Piece>)
    ensures Render(a + b) == Render(a) + Render(b)
  {
    if a == [] {
      assert a + b == b;
    } else {
      assert (a + b)[1..] == a[1..] + b;
      RenderConcat(a[1..], b);
      Regroup(RenderPiece(a[0]), Render(a[1..]), Render(b));
    }
  }

  lemma {:induction false} Regroup(a: string, b: string, c: string)
    ensures a + (b + c) == a + b + c
  {
  }

  lemma {:induction false} RenderAround(before: seq<Piece>, p: Piece, after: seq<Piece>)
    requires p.Pair?
    ensures Render(before + [p] + after) == (Render(before) + p.start) + p.inner + (p.end + Render(after))
  {
    assert before + [p] + after == before + ([p] + after);
    RenderConcat(before, [p] + after);
    RenderConcat([p], after);
    RenderOne(p);
    FiveParts(Render(before), p.start, p.inner, p.end, Render(after));
  }

  lemma {:induction false} RenderOne(p: Piece)
    ensures Render([p]) == RenderPiece(p)
  {
    assert [p][1..] == [];
  }

  lemma {:induction false} FiveParts(a: string, b: string, c: string, d: string, e: string)
    ensures a + ((b + c + d) + e) == (a + b) + c + (d + e)
  {
  }

  lemma {:induction false} OccursInItself(m: string)
    ensures OccursAt(m, m, 0)
  {
    assert m[0..|m|] == m;
  }

  /** Where a marker that occurs once is found. */
  lemma {:induction false} FoundWhereItIs(m: string, left: string, right: string)
    requires UniqueIn(m, left + m + right)
    ensures IndexOf(left + m + right, m) == |left|
  {
    hide OccursAt;
    var text := left + m + right;
    OccursInItself(m);
    OccursRight(m, left, m, 0);
    OccursLeft(m, left + m, right, |left|);
    IndexOfIsFirst(text, m);
  }

  lemma {:induction false} UniqueAfterSplice(m: string, left: string, inner: string, body: string, right: string)
    requires IsMarker(m) && !Occurs(m, body) && UniqueIn(m, left + inner + right)
    ensures UniqueIn(m, left + Fenced(body) + right)
  {
    hide OccursAt, Fenced;
    var next, shift := left + Fenced(body) + right, |inner| - |Fenced(body)|;
    forall i, j | OccursAt(m, next, i) && OccursAt(m, next, j) ensures i == j {
      var a := WasAt(m, left, inner, body, right, i);
      var b := WasAt(m, left, inner, body, right, j);
    }
  }

  lemma {:induction false} WasAt(m: string, left: string, inner: string, body: string, right: string, i: int)
    returns (was: int)
    requires IsMarker(m) && !Occurs(m, body) && OccursAt(m, left + Fenced(body) + right, i)
    ensures OccursAt(m, left + inner + right, was)
    ensures if i + |m| <= |left| then was == i
            else was == i + |inner| - |Fenced(body)| && i >= |left| + |Fenced(body)|
  {
    hide OccursAt;
    BeforeOrAfter(m, left, body, right, i);
    assert left + inner + right == left + (inner + right);
    if i + |m| <= |left| {
      was := i;
      OccursLeft(m, left, inner + right, i);
    } else {
      was := i + |inner| - |Fenced(body)|;
      OccursRight(m, left + inner, right, i - |left + Fenced(body)|);
    }
  }

  /** Splicing one block fills its pair and nothing else. */
  lemma {:induction false} SpliceFillsItsPair(before: seq<Piece>, p: Piece, after: seq<Piece>, block: Block)
    requires Marked(before + [p] + after) && Matches(p, block)
    ensures SpliceOne(Render(before + [p] + after), block) ==
            Some(Render(before + [Pair(p.start, Fenced(block.body), p.end)] + after))
  {
    hide SpliceOne, Render, UniqueIn;
    var pieces := before + [p] + after;
    assert p in pieces && IsMarkerOf(pieces, p.start) && IsMarkerOf(pieces, p.end);
    RenderAround(before, p, after);
    RenderAround(before, Pair(p.start, Fenced(block.body), p.end), after);
    SpliceBetween(Render(before), p.inner, Render(after), block);
  }

  lemma {:induction false} SpliceBetween(left: string, inner: string, right: string, block: Block)
    requires UniqueIn(block.start, (left + block.start) + inner + (block.end + right))
    requires UniqueIn(block.end, (left + block.start) + inner + (block.end + right))
    ensures SpliceOne((left + block.start) + inner + (block.end + right), block) ==
            Some((left + block.start) + Fenced(block.body) + (block.end + right))
  {
    hide IndexOf, Fenced, UniqueIn;
    var head, tail := left + block.start, block.end + right;
    var page := head + inner + tail;
    assert page == left + block.start + (inner + tail);
    FoundWhereItIs(block.start, left, inner + tail);
    assert page == (head + inner) + block.end + right;
    FoundWhereItIs(block.end, head + inner, right);
    assert page[..|head|] == head;
    assert page[|head + inner|..] == tail;
  }

  lemma {:induction false} StaysMarked(before: seq<Piece>, p: Piece, after: seq<Piece>, body: string)
    requires Marked(before + [p] + after) && p.Pair?
    requires forall m :: IsMarkerOf(before + [p] + after, m) ==> !Occurs(m, body)
    ensures Marked(before + [Pair(p.start, Fenced(body), p.end)] + after)
    ensures forall m :: IsMarkerOf(before + [Pair(p.start, Fenced(body), p.end)] + after, m) <==>
                        IsMarkerOf(before + [p] + after, m)
  {
    hide Fenced, UniqueIn, Occurs, IsMarker;
    var q := Pair(p.start, Fenced(body), p.end);
    var was, now := before + [p] + after, before + [q] + after;
    RenderAround(before, p, after);
    RenderAround(before, q, after);
    forall m ensures IsMarkerOf(now, m) <==> IsMarkerOf(was, m) {
      MarkerAround(before, p, after, m);
      MarkerAround(before, q, after, m);
    }
    forall m | IsMarkerOf(now, m) ensures IsMarker(m) && UniqueIn(m, Render(now)) {
      UniqueAfterSplice(m, Render(before) + p.start, p.inner, body, p.end + Render(after));
    }
  }

  lemma {:induction false} MarkerAround(before: seq<Piece>, p: Piece, after: seq<Piece>, m: string)
    requires p.Pair?
    ensures IsMarkerOf(before + [p] + after, m) <==>
            m == p.start || m == p.end || IsMarkerOf(before, m) || IsMarkerOf(after, m)
  {
    var all := before + [p] + after;
    assert forall x :: x in all <==> x == p || x in before || x in after;
  }

  lemma {:induction false} PairOf(pieces: seq<Piece>, block: Block) returns (i: nat)
    requires exists p :: p in pieces && Matches(p, block)
    ensures i < |pieces| && Matches(pieces[i], block)
    ensures pieces == pieces[..i] + [pieces[i]] + pieces[i + 1..]
  {
    var p :| p in pieces && Matches(p, block);
    i :| 0 <= i < |pieces| && pieces[i] == p;
  }

  /** The markers of another piece lie elsewhere, so its start is another one. */
  lemma {:induction false} OnePairPerStart(pieces: seq<Piece>, i: nat, j: nat)
    requires Marked(pieces) && i < j < |pieces| && pieces[i].Pair? && pieces[j].Pair?
    ensures pieces[i].start != pieces[j].start
  {
    hide OccursAt, IsMarker, Render;
    var before, mid, after := pieces[..i], pieces[i + 1..j], pieces[j + 1..];
    var m := pieces[i].start;
    assert pieces[i] in pieces && IsMarkerOf(pieces, m);
    MarkerIsNotEmpty(pieces, m);
    assert pieces == before + [pieces[i]] + (mid + [pieces[j]] + after);
    assert pieces == (before + [pieces[i]] + mid) + [pieces[j]] + after;
    StartOccursAt(before, pieces[i], mid + [pieces[j]] + after);
    StartOccursAt(before + [pieces[i]] + mid, pieces[j], after);
    RenderGrows(before, pieces[i], mid);
  }

  lemma {:induction false} RenderGrows(before: seq<Piece>, p: Piece, mid: seq<Piece>)
    requires p.Pair?
    ensures |Render(before + [p] + mid)| >= |Render(before)| + |p.start|
  {
    hide Render;
    RenderAround(before, p, mid);
  }

  lemma {:induction false} MarkerIsNotEmpty(pieces: seq<Piece>, m: string)
    requires Marked(pieces) && IsMarkerOf(pieces, m)
    ensures |m| > 0
  {
  }

  lemma {:induction false} StartOccursAt(before: seq<Piece>, p: Piece, after: seq<Piece>)
    requires p.Pair?
    ensures OccursAt(p.start, Render(before + [p] + after), |Render(before)|)
  {
    hide OccursAt, Render;
    RenderAround(before, p, after);
    var rest := p.inner + (p.end + Render(after));
    OccursInItself(p.start);
    OccursRight(p.start, Render(before), p.start, 0);
    OccursLeft(p.start, Render(before) + p.start, rest, |Render(before)|);
    Regroup(Render(before) + p.start, p.inner, p.end + Render(after));
  }

  /** Filling one block touches one piece. */
  lemma {:induction false} FillOne(pieces: seq<Piece>, i: nat, block: Block)
    requires Marked(pieces) && i < |pieces| && Matches(pieces[i], block)
    ensures FillAll(pieces, [block]) ==
            pieces[..i] + [Pair(pieces[i].start, Fenced(block.body), pieces[i].end)] + pieces[i + 1..]
  {
    hide Marked, Fenced;
    forall j | 0 <= j < |pieces| && j != i ensures Filled(pieces[j], [block]) == pieces[j] {
      if pieces[j].Pair? {
        OnePairPerStart(pieces, if i < j then i else j, if i < j then j else i);
      }
      FilledByOther(pieces[j], block);
    }
  }

  lemma {:induction false} FilledByOther(p: Piece, block: Block)
    requires !Matches(p, block)
    ensures Filled(p, [block]) == p
  {
    assert [block][1..] == [];
  }

  lemma {:induction false} FilledInTurn(p: Piece, blocks: seq<Block>)
    requires blocks != [] && forall i, j :: 0 <= i < j < |blocks| ==> blocks[i].start != blocks[j].start
    ensures Filled(Filled(p, [blocks[0]]), blocks[1..]) == Filled(p, blocks)
  {
    assert [blocks[0]][1..] == [];
    if Matches(p, blocks[0]) {
      NotMeant(Filled(p, [blocks[0]]), blocks[1..]);
    }
  }

  lemma {:induction false} NotMeant(p: Piece, blocks: seq<Block>)
    requires forall b :: b in blocks ==> !Matches(p, b)
    ensures Filled(p, blocks) == p
  {
    if blocks != [] {
      NotMeant(p, blocks[1..]);
    }
  }

  lemma {:induction false} FitsStill(pieces: seq<Piece>, next: seq<Piece>, blocks: seq<Block>)
    requires blocks != [] && Fit(pieces, blocks) && next == FillAll(pieces, [blocks[0]])
    requires forall m :: IsMarkerOf(next, m) <==> IsMarkerOf(pieces, m)
    ensures Fit(next, blocks[1..])
  {
    hide IsMarkerOf, Occurs, Fenced;
    forall b | b in blocks[1..] ensures exists p :: p in next && Matches(p, b) {
      assert b in blocks;
      var i := PairOf(pieces, b);
      KeepsMarkers(pieces[i], blocks[0]);
      assert next[i] in next;
    }
  }

  lemma {:induction false} KeepsMarkers(p: Piece, block: Block)
    ensures p.Pair? ==> Filled(p, [block]).Pair? && Filled(p, [block]).start == p.start && Filled(p, [block]).end == p.end
  {
    assert [block][1..] == [];
  }

  /** The loop as a whole fills each pair with its own body and leaves every other character alone. */
  lemma {:induction false} SplicingFillsThePairs(pieces: seq<Piece>, blocks: seq<Block>)
    requires Marked(pieces) && Fit(pieces, blocks)
    ensures Spliced(Render(pieces), blocks) == Some(Render(FillAll(pieces, blocks)))
    ensures Marked(FillAll(pieces, blocks))
    decreases |blocks|
  {
    hide Marked, Render, SpliceOne, IsMarkerOf, Occurs, Fenced, Matches;
    if blocks == [] {
      assert FillAll(pieces, blocks) == pieces;
    } else {
      var block := blocks[0];
      assert block in blocks;
      var i := PairOf(pieces, block);
      var next := FillAll(pieces, [block]);
      FirstSplice(pieces, i, block);
      FitsStill(pieces, next, blocks);
      SplicingFillsThePairs(next, blocks[1..]);
      forall k | 0 <= k < |pieces|
        ensures FillAll(next, blocks[1..])[k] == FillAll(pieces, blocks)[k]
      {
        FilledInTurn(pieces[k], blocks);
      }
      assert FillAll(next, blocks[1..]) == FillAll(pieces, blocks);
    }
  }

  lemma {:induction false} FirstSplice(pieces: seq<Piece>, i: nat, block: Block)
    requires Marked(pieces) && i < |pieces| && Matches(pieces[i], block)
    requires pieces == pieces[..i] + [pieces[i]] + pieces[i + 1..]
    requires forall m :: IsMarkerOf(pieces, m) ==> !Occurs(m, block.body)
    ensures SpliceOne(Render(pieces), block) == Some(Render(FillAll(pieces, [block])))
    ensures Marked(FillAll(pieces, [block]))
    ensures forall m :: IsMarkerOf(FillAll(pieces, [block]), m) <==> IsMarkerOf(pieces, m)
  {
    hide Marked, Render, SpliceOne, IsMarkerOf, Occurs, Fenced;
    FillOne(pieces, i, block);
    SpliceFillsItsPair(pieces[..i], pieces[i], pieces[i + 1..], block);
    StaysMarked(pieces[..i], pieces[i], pieces[i + 1..], block.body);
  }

  /** The blocks may come in any order. */
  lemma {:induction false} OrderDoesNotMatter(pieces: seq<Piece>, a: seq<Block>, b: seq<Block>)
    requires Marked(pieces) && Fit(pieces, a) && Fit(pieces, b)
    requires forall x :: x in a <==> x in b
    ensures Spliced(Render(pieces), a) == Spliced(Render(pieces), b)
  {
    hide Marked, Render, Spliced, IsMarkerOf, Occurs, Fenced;
    SplicingFillsThePairs(pieces, a);
    SplicingFillsThePairs(pieces, b);
    forall k | 0 <= k < |pieces| ensures Filled(pieces[k], a) == Filled(pieces[k], b) {
      FilledByWhom(pieces[k], a);
      FilledByWhom(pieces[k], b);
    }
    assert FillAll(pieces, a) == FillAll(pieces, b);
  }

  lemma {:induction false} FilledByWhom(p: Piece, blocks: seq<Block>)
    requires forall i, j :: 0 <= i < j < |blocks| ==> blocks[i].start != blocks[j].start
    ensures forall b :: b in blocks && Matches(p, b) ==> Filled(p, blocks) == Pair(p.start, Fenced(b.body), p.end)
    ensures (forall b :: b in blocks ==> !Matches(p, b)) ==> Filled(p, blocks) == p
  {
    if blocks != [] {
      assert blocks == [blocks[0]] + blocks[1..];
      FilledByWhom(p, blocks[1..]);
    }
  }

  /** Applying the blocks to the page they produced changes nothing more. */
  lemma {:induction false} ApplyingTwiceIsOnce(pieces: seq<Piece>, blocks: seq<Block>)
    requires Marked(pieces) && Fit(pieces, blocks)
    ensures Spliced(Render(pieces), blocks).Some?
    ensures Spliced(Spliced(Render(pieces), blocks).value, blocks) == Spliced(Render(pieces), blocks)
  {
    hide Marked, Render, Spliced, IsMarkerOf, Occurs, Fenced, Fit;
    SplicingFillsThePairs(pieces, blocks);
    var next := FillAll(pieces, blocks);
    FitsAfter(pieces, blocks);
    SplicingFillsThePairs(next, blocks);
    FillTwice(pieces, blocks);
  }

  lemma {:induction false} FillTwice(pieces: seq<Piece>, blocks: seq<Block>)
    requires Fit(pieces, blocks)
    ensures FillAll(FillAll(pieces, blocks), blocks) == FillAll(pieces, blocks)
  {
    hide Fenced;
    var next := FillAll(pieces, blocks);
    forall k | 0 <= k < |pieces| ensures Filled(next[k], blocks) == next[k] {
      FilledByWhom(pieces[k], blocks);
      FilledByWhom(next[k], blocks);
    }
  }

  lemma {:induction false} FitsAfter(pieces: seq<Piece>, blocks: seq<Block>)
    requires Fit(pieces, blocks)
    ensures Fit(FillAll(pieces, blocks), blocks)
  {
    hide Fenced, Occurs;
    var next := FillAll(pieces, blocks);
    forall k | 0 <= k < |pieces| ensures SameMarkers(pieces[k], next[k]) {
      FilledByWhom(pieces[k], blocks);
    }
    forall m | IsMarkerOf(next, m) ensures IsMarkerOf(pieces, m) {
      var q :| q in next && q.Pair? && (m == q.start || m == q.end);
      var k :| 0 <= k < |next| && next[k] == q;
      assert SameMarkers(pieces[k], next[k]) && pieces[k] in pieces;
    }
    forall b | b in blocks ensures exists p :: p in next && Matches(p, b) {
      var i := PairOf(pieces, b);
      assert SameMarkers(pieces[i], next[i]) && next[i] in next;
    }
  }

  ghost predicate SameMarkers(p: Piece, q: Piece) {
    p.Pair? == q.Pair? && (p.Pair? ==> p.start == q.start && p.end == q.end)
  }
}
