/** Contract path templates compiled into regex literals, and the row a request is judged by. */
module RouteMatcher {
  import opened Basics
  import opened Text

  // ---------------------------------------------------------------- the compiler

  /** The characters a regular expression gives a meaning of its own. */
  const SPECIAL: string := "$()*+.?[\\]^{|}"

  function Escape(s: string): string {
    if s == "" then "" else (if s[0] in SPECIAL then ['\\', s[0]] else [s[0]]) + Escape(s[1..])
  }

  predicate IsParameter(segment: string) {
    "{" <= segment
  }

  function SegmentSource(segment: string): string {
    if IsParameter(segment) then "[^/]+" else Escape(segment)
  }

  function Source(segments: seq<string>): string
    requires segments != []
  {
    if |segments| == 1 then SegmentSource(segments[0])
    else SegmentSource(segments[0]) + "\\/" + Source(segments[1..])
  }

  function CompileTemplate(template: string): string {
    "/^" + Source(Split(template, '/')) + "$/i"
  }

  function ParameterCount(template: string): nat {
    |Filter(Split(template, '/'), (s: string) => IsParameter(s))|
  }

  /** A segment is a parameter when it starts with a brace; a template has as many as it has such segments. */
  lemma {:induction false} ParametersAreBraced(segments: seq<string>)
    requires segments != [] && forall i :: 0 <= i < |segments| ==> '/' !in segments[i]
    ensures forall s :: IsParameter(s) <==> s != "" && s[0] == '{'
    ensures ParameterCount(Join(segments, '/')) == |Filter(segments, (s: string) => s != "" && s[0] == '{')|
  {
    SplitJoin(segments, '/');
    FilterSame(segments, (s: string) => IsParameter(s), (s: string) => s != "" && s[0] == '{');
  }

  // ---------------------------------------------------------------- reading a literal back

  /** The part of the regex language the compiler uses: a character, or one or more non-slashes. */
  datatype Piece = Lit(c: char) | NonSlashes

  function Prepend(pieces: seq<Piece>, rest: Option<seq<Piece>>): Option<seq<Piece>> {
    match rest
    case None => None
    case Some(more) => Some(pieces + more)
  }

  function ReadPieces(source: string): Option<seq<Piece>> {
    if source == "" then Some([])
    else if source[0] == '\\' then
      if |source| >= 2 && (source[1] in SPECIAL || source[1] == '/')
      then Prepend([Lit(source[1])], ReadPieces(source[2..])) else None
    else if "[^/]+" <= source then Prepend([NonSlashes], ReadPieces(source[5..]))
    else if source[0] in SPECIAL || source[0] == '/' || source[0] in LINE_BREAKS then None
    else Prepend([Lit(source[0])], ReadPieces(source[1..]))
  }

  function ReadLiteral(literal: string): Option<seq<Piece>> {
    var n := |literal|;
    if n >= 5 && "/^" <= literal && literal[n - 3..] == "$/i" then ReadPieces(literal[2..n - 3]) else None
  }

  /** What one character of text and one of pattern are to a case-insensitive match. */
  type Fold = char -> char

  /** Case-insensitive, anchored at both ends: every way of splitting the text is tried. */
  ghost predicate Matches(fold: Fold, pieces: seq<Piece>, text: string) {
    if pieces == [] then text == ""
    else
      match pieces[0]
      case Lit(c) => text != "" && fold(text[0]) == fold(c) && Matches(fold, pieces[1..], text[1..])
      case NonSlashes =>
        exists n :: 1 <= n <= |text| && AllNonSlash(fold, text, n) && Matches(fold, pieces[1..], text[n..])
  }

  ghost predicate AllNonSlash(fold: Fold, text: string, n: nat)
    requires n <= |text|
  {
    forall i :: 0 <= i < n ==> fold(text[i]) != fold('/')
  }

  /** Only the slash folds to a slash. */
  ghost predicate KeepsSlash(fold: Fold) {
    forall c :: fold(c) == fold('/') <==> c == '/'
  }

  // ---------------------------------------------------------------- the compiler's output reads back

  function Lits(s: string): seq<Piece> {
    if s == "" then [] else [Lit(s[0])] + Lits(s[1..])
  }

  function PiecesOf(segments: seq<string>): seq<Piece>
    requires segments != []
  {
    var first := if IsParameter(segments[0]) then [NonSlashes] else Lits(segments[0]);
    if |segments| == 1 then first else first + [Lit('/')] + PiecesOf(segments[1..])
  }

  /** No line break in the text the pattern spells out. */
  ghost predicate OneLine(segments: seq<string>) {
    forall i :: 0 <= i < |segments| && !IsParameter(segments[i]) ==> forall c :: c in segments[i] ==> c !in LINE_BREAKS
  }

  lemma {:induction false} PrependTwice(a: seq<Piece>, b: seq<Piece>, rest: Option<seq<Piece>>)
    ensures Prepend(a, Prepend(b, rest)) == Prepend(a + b, rest)
  {
    if rest.Some? {
      assert a + (b + rest.value) == a + b + rest.value;
    }
  }

  lemma {:induction false} EscapedReadsBack(s: string, rest: string)
    requires '/' !in s
    ensures ReadPieces(Escape(s) + rest) ==
            if forall c :: c in s ==> c !in LINE_BREAKS then Prepend(Lits(s), ReadPieces(rest)) else None
  {
    if s == "" {
      assert Escape(s) + rest == rest;
      PrependNothing(ReadPieces(rest));
    } else {
      EscapedReadsBack(s[1..], rest);
      EscapedCons(s, rest);
      PrependTwice([Lit(s[0])], Lits(s[1..]), ReadPieces(rest));
      assert forall c :: c in s <==> c == s[0] || c in s[1..];
    }
  }

  lemma {:induction false} PrependNothing(rest: Option<seq<Piece>>)
    ensures Prepend([], rest) == rest
  {
    if rest.Some? {
      assert [] + rest.value == rest.value;
    }
  }

  lemma {:induction false} EscapedCons(s: string, rest: string)
    requires s != "" && s[0] != '/'
    ensures ReadPieces(Escape(s) + rest) ==
            if s[0] in LINE_BREAKS then None else Prepend([Lit(s[0])], ReadPieces(Escape(s[1..]) + rest))
  {
    hide ReadPieces;
    var tail := Escape(s[1..]) + rest;
    if s[0] in SPECIAL {
      assert Escape(s) + rest == ['\\', s[0]] + tail;
      ReadEscape(s[0], tail);
    } else {
      assert Escape(s) + rest == [s[0]] + tail;
      ReadPlain(s[0], tail);
    }
  }

  lemma {:induction false} ReadEscape(c: char, tail: string)
    requires c in SPECIAL
    ensures ReadPieces(['\\', c] + tail) == Prepend([Lit(c)], ReadPieces(tail))
    ensures c !in LINE_BREAKS
  {
    assert (['\\', c] + tail)[2..] == tail;
    assert forall i :: 0 <= i < |SPECIAL| ==> SPECIAL[i] !in LINE_BREAKS;
  }

  lemma {:induction false} ReadPlain(c: char, tail: string)
    requires c !in SPECIAL && c != '/'
    ensures ReadPieces([c] + tail) == if c in LINE_BREAKS then None else Prepend([Lit(c)], ReadPieces(tail))
  {
    assert ([c] + tail)[1..] == tail;
    assert "[^/]+"[0] == SPECIAL[7] && '\\' == SPECIAL[8];
  }

  lemma {:induction false} SlashReadsBack(rest: string)
    ensures ReadPieces("\\/" + rest) == Prepend([Lit('/')], ReadPieces(rest))
  {
    assert ("\\/" + rest)[2..] == rest;
  }

  lemma {:induction false} SegmentReadsBack(segment: string, rest: string)
    requires '/' !in segment
    ensures ReadPieces(SegmentSource(segment) + rest) ==
            if OneLine([segment])
            then Prepend(if IsParameter(segment) then [NonSlashes] else Lits(segment), ReadPieces(rest)) else None
  {
    assert [segment][0] == segment;
    if IsParameter(segment) {
      assert ("[^/]+" + rest)[5..] == rest;
    } else {
      EscapedReadsBack(segment, rest);
    }
  }

  lemma {:induction false} SourceReadsBack(segments: seq<string>)
    requires segments != [] && forall i :: 0 <= i < |segments| ==> '/' !in segments[i]
    ensures ReadPieces(Source(segments)) == if OneLine(segments) then Some(PiecesOf(segments)) else None
  {
    hide ReadPieces, SegmentSource, Lits;
    var first := if IsParameter(segments[0]) then [NonSlashes] else Lits(segments[0]);
    if |segments| == 1 {
      SegmentReadsBack(segments[0], "");
      assert Source(segments) + "" == Source(segments) && segments == [segments[0]];
      NothingLeft();
      assert first + [] == first;
    } else {
      var rest := Source(segments[1..]);
      SegmentReadsBack(segments[0], "\\/" + rest);
      assert Source(segments) == SegmentSource(segments[0]) + ("\\/" + rest);
      SlashReadsBack(rest);
      SourceReadsBack(segments[1..]);
      PrependTwice(first, [Lit('/')], ReadPieces(rest));
      OneLineCons(segments);
    }
  }

  lemma {:induction false} NothingLeft()
    ensures ReadPieces("") == Some([])
  {
  }

  lemma {:induction false} OneLineCons(segments: seq<string>)
    requires segments != []
    ensures OneLine(segments) <==> OneLine([segments[0]]) && OneLine(segments[1..])
  {
    var head, tail := [segments[0]], segments[1..];
    if OneLine(head) && OneLine(tail) {
      forall i | 0 <= i < |segments| && !IsParameter(segments[i])
        ensures forall c :: c in segments[i] ==> c !in LINE_BREAKS
      {
        assert segments[i] == if i == 0 then head[0] else tail[i - 1];
      }
    }
    if OneLine(segments) {
      assert head[0] == segments[0];
      assert forall i :: 0 <= i < |tail| ==> tail[i] == segments[i + 1];
    }
  }

  /** The literal a template compiles to is a regular expression exactly when it fits one line, and then says this. */
  lemma {:induction false} LiteralReadsBack(template: string)
    ensures ReadLiteral(CompileTemplate(template)) ==
            if OneLine(Split(template, '/')) then Some(PiecesOf(Split(template, '/'))) else None
  {
    var source := Source(Split(template, '/'));
    var literal := "/^" + source + "$/i";
    assert literal[|literal| - 3..] == "$/i" && literal[2..|literal| - 3] == source;
    SourceReadsBack(Split(template, '/'));
  }

  // ---------------------------------------------------------------- what the pattern accepts

  ghost predicate SegmentAgrees(fold: Fold, segment: string, part: string) {
    if IsParameter(segment) then part != ""
    else |segment| == |part| && forall i :: 0 <= i < |part| ==> fold(segment[i]) == fold(part[i])
  }

  /** Segment by segment: literals equal ignoring case, parameters filled with anything but nothing. */
  ghost predicate Agrees(fold: Fold, segments: seq<string>, parts: seq<string>) {
    |segments| == |parts| && forall i :: 0 <= i < |parts| ==> SegmentAgrees(fold, segments[i], parts[i])
  }

  lemma {:induction false} LitsMatch(fold: Fold, s: string, rest: seq<Piece>, text: string)
    ensures Matches(fold, Lits(s) + rest, text) <==>
            |s| <= |text| && SameFold(fold, s, text[..|s|]) && Matches(fold, rest, text[|s|..])
  {
    if s == "" {
      assert Lits(s) + rest == rest && text[0..] == text;
    } else if text != "" {
      assert (Lits(s) + rest)[1..] == Lits(s[1..]) + rest;
      LitsMatch(fold, s[1..], rest, text[1..]);
      if |s| <= |text| {
        assert text[1..][|s| - 1..] == text[|s|..];
        assert text[1..][..|s| - 1] == text[..|s|][1..];
        SameFoldCons(fold, s, text[..|s|]);
      }
    }
  }

  ghost predicate SameFold(fold: Fold, a: string, b: string) {
    |a| == |b| && forall i :: 0 <= i < |b| ==> fold(a[i]) == fold(b[i])
  }

  lemma {:induction false} SameFoldCons(fold: Fold, a: string, b: string)
    requires a != "" && b != ""
    ensures SameFold(fold, a, b) <==> fold(a[0]) == fold(b[0]) && SameFold(fold, a[1..], b[1..])
  {
    if fold(a[0]) == fold(b[0]) && SameFold(fold, a[1..], b[1..]) {
      forall i | 0 <= i < |b| ensures fold(a[i]) == fold(b[i]) {
        assert i > 0 ==> a[i] == a[1..][i - 1] && b[i] == b[1..][i - 1];
      }
    }
    if SameFold(fold, a, b) {
      assert forall i :: 0 <= i < |b| - 1 ==> a[1..][i] == a[i + 1] && b[1..][i] == b[i + 1];
    }
  }

  /** A text is one part, or a part, a slash and the rest. */
  lemma {:induction false} FirstPart(text: string) returns (head: string, last: bool, tail: string)
    ensures '/' !in head
    ensures last ==> text == head && Split(text, '/') == [head]
    ensures !last ==> text == head + "/" + tail && Split(text, '/') == [head] + Split(tail, '/')
  {
    if text == "" {
      head, last, tail := "", true, "";
    } else if text[0] == '/' {
      head, last, tail := "", false, text[1..];
    } else {
      head, last, tail := FirstPart(text[1..]);
      head := [text[0]] + head;
      assert text == [text[0]] + text[1..];
    }
  }

  ghost predicate StartsAtSlash(text: string) {
    text == "" || text[0] == '/'
  }

  lemma {:induction false} OneBoundary(text: string, m: nat, n: nat)
    requires m <= |text| && n <= |text|
    requires '/' !in text[..m] && StartsAtSlash(text[m..])
    requires '/' !in text[..n] && StartsAtSlash(text[n..])
    ensures m == n
  {
    assert m < |text| ==> text[m..][0] == text[m];
    assert n < |text| ==> text[n..][0] == text[n];
    assert forall i :: 0 <= i < n ==> text[..n][i] == text[i] && text[i] in text[..n];
    assert forall i :: 0 <= i < m ==> text[..m][i] == text[i] && text[i] in text[..m];
  }

  /** The rest of a pattern after a segment: nothing, or a slash and more. */
  ghost predicate AfterSegment(rest: seq<Piece>) {
    rest == [] || rest[0] == Lit('/')
  }

  lemma {:induction false} RestStartsAtSlash(fold: Fold, rest: seq<Piece>, text: string)
    requires KeepsSlash(fold) && AfterSegment(rest) && Matches(fold, rest, text)
    ensures StartsAtSlash(text)
  {
  }

  lemma {:induction false} LiteralSegment(fold: Fold, segment: string, rest: seq<Piece>, text: string, m: nat)
    requires KeepsSlash(fold) && AfterSegment(rest) && '/' !in segment && !IsParameter(segment)
    requires m <= |text| && '/' !in text[..m] && StartsAtSlash(text[m..])
    ensures Matches(fold, Lits(segment) + rest, text) <==>
            SegmentAgrees(fold, segment, text[..m]) && Matches(fold, rest, text[m..])
  {
    hide Matches;
    var n := |segment|;
    LitsMatch(fold, segment, rest, text);
    if n <= |text| && SameFold(fold, segment, text[..n]) && Matches(fold, rest, text[n..]) {
      RestStartsAtSlash(fold, rest, text[n..]);
      forall i | 0 <= i < n ensures text[..n][i] != '/' {
        assert fold(segment[i]) == fold(text[..n][i]) && segment[i] in segment;
      }
      OneBoundary(text, m, n);
    }
  }

  lemma {:induction false} ParameterSegment(fold: Fold, rest: seq<Piece>, text: string, m: nat)
    requires KeepsSlash(fold) && AfterSegment(rest)
    requires m <= |text| && '/' !in text[..m] && StartsAtSlash(text[m..])
    ensures Matches(fold, [NonSlashes] + rest, text) <==> text[..m] != "" && Matches(fold, rest, text[m..])
  {
    assert ([NonSlashes] + rest)[1..] == rest;
    forall n: nat | 1 <= n <= |text| && AllNonSlash(fold, text, n) && Matches(fold, rest, text[n..]) ensures n == m {
      RestStartsAtSlash(fold, rest, text[n..]);
      assert '/' !in text[..n];
      OneBoundary(text, m, n);
    }
    if m > 0 {
      assert forall i :: 0 <= i < m ==> text[..m][i] == text[i] && text[i] in text[..m];
      assert AllNonSlash(fold, text, m);
    }
  }

  lemma {:induction false} SlashThenMore(fold: Fold, more: seq<Piece>, text: string)
    requires KeepsSlash(fold)
    ensures Matches(fold, [Lit('/')] + more, text) <==> text != "" && text[0] == '/' && Matches(fold, more, text[1..])
  {
    assert ([Lit('/')] + more)[1..] == more;
  }

  lemma {:induction false} SegmentMatches(fold: Fold, segment: string, rest: seq<Piece>, text: string, m: nat)
    requires KeepsSlash(fold) && AfterSegment(rest) && '/' !in segment
    requires m <= |text| && '/' !in text[..m] && StartsAtSlash(text[m..])
    ensures Matches(fold, (if IsParameter(segment) then [NonSlashes] else Lits(segment)) + rest, text) <==>
            SegmentAgrees(fold, segment, text[..m]) && Matches(fold, rest, text[m..])
  {
    hide Matches;
    if IsParameter(segment) {
      ParameterSegment(fold, rest, text, m);
    } else {
      LiteralSegment(fold, segment, rest, text, m);
    }
  }

  lemma {:induction false} PatternIsSegmentwise(fold: Fold, segments: seq<string>, text: string)
    requires KeepsSlash(fold) && segments != [] && forall i :: 0 <= i < |segments| ==> '/' !in segments[i]
    ensures Matches(fold, PiecesOf(segments), text) <==> Agrees(fold, segments, Split(text, '/'))
    decreases |segments|
  {
    hide Matches, Lits, SegmentAgrees, KeepsSlash, IsParameter;
    var first := if IsParameter(segments[0]) then [NonSlashes] else Lits(segments[0]);
    var head, last, tail := FirstPart(text);
    var m := |head|;
    assert text[..m] == head && (if last then text[m..] == "" else text[m..] == "/" + tail);
    AgreesCons(fold, segments, Split(text, '/'));
    if |segments| == 1 {
      assert first + [] == first;
      SegmentMatches(fold, segments[0], [], text, m);
      MatchNothing(fold, text[m..]);
    } else {
      var more := PiecesOf(segments[1..]);
      assert PiecesOf(segments) == first + ([Lit('/')] + more);
      SegmentMatches(fold, segments[0], [Lit('/')] + more, text, m);
      SlashThenMore(fold, more, text[m..]);
      if !last {
        assert text[m..][1..] == tail;
        PatternIsSegmentwise(fold, segments[1..], tail);
      }
    }
  }

  lemma {:induction false} MatchNothing(fold: Fold, text: string)
    ensures Matches(fold, [], text) <==> text == ""
  {
  }

  lemma {:induction false} AgreesCons(fold: Fold, segments: seq<string>, parts: seq<string>)
    requires segments != [] && parts != []
    ensures Agrees(fold, segments, parts) <==>
            SegmentAgrees(fold, segments[0], parts[0]) && Agrees(fold, segments[1..], parts[1..])
  {
    hide SegmentAgrees;
    if SegmentAgrees(fold, segments[0], parts[0]) && Agrees(fold, segments[1..], parts[1..]) {
      forall i | 0 <= i < |parts| ensures SegmentAgrees(fold, segments[i], parts[i]) {
        assert i > 0 ==> segments[i] == segments[1..][i - 1] && parts[i] == parts[1..][i - 1];
      }
    }
    if Agrees(fold, segments, parts) {
      forall i | 0 <= i < |parts| - 1 ensures SegmentAgrees(fold, segments[1..][i], parts[1..][i]) {
        assert SegmentAgrees(fold, segments[i + 1], parts[i + 1]);
      }
    }
  }

  /** Whether the compiled literal, read as a regular expression, accepts the path. */
  ghost predicate Accepts(fold: Fold, literal: string, path: string) {
    ReadLiteral(literal).Some? && Matches(fold, ReadLiteral(literal).value, path)
  }

  /** A compiled template accepts exactly the paths that agree with it segment by segment. */
  lemma {:induction false} CompiledTemplateIsFaithful(fold: Fold, template: string, path: string)
    requires KeepsSlash(fold) && OneLine(Split(template, '/'))
    ensures Accepts(fold, CompileTemplate(template), path) <==> Agrees(fold, Split(template, '/'), Split(path, '/'))
  {
    LiteralReadsBack(template);
    PatternIsSegmentwise(fold, Split(template, '/'), path);
  }

  // ---------------------------------------------------------------- the rows, and the one a request meets

  /** One write operation of the contract. */
  datatype Operation = Operation(verb: string, route: string, types: seq<string>)

  datatype Row = Row(verb: string, route: string, literal: string, parameterCount: nat, types: seq<string>)

  function RowOf(operation: Operation): Row {
    Row(operation.verb, operation.route, CompileTemplate(operation.route), ParameterCount(operation.route),
        operation.types)
  }

  function RowsOf(operations: seq<Operation>): (rows: seq<Row>)
    ensures |rows| == |operations| && forall i :: 0 <= i < |rows| ==> rows[i] == RowOf(operations[i])
  {
    if operations == [] then [] else [RowOf(operations[0])] + RowsOf(operations[1..])
  }

  /** How rows with as many parameters are ordered: by key, in whatever collation. */
  type Collation = (string, string) -> bool

  predicate Precedes(tie: Collation, a: Row, b: Row) {
    || a.parameterCount < b.parameterCount
    || (a.parameterCount == b.parameterCount && tie(a.verb + " " + a.route, b.verb + " " + b.route))
  }

  function Place(tie: Collation, row: Row, rows: seq<Row>): (r: seq<Row>)
    ensures forall x :: x in r <==> x == row || x in rows
  {
    if rows == [] || Precedes(tie, row, rows[0]) then [row] + rows else [rows[0]] + Place(tie, row, rows[1..])
  }

  function SortRows(tie: Collation, rows: seq<Row>): seq<Row> {
    if rows == [] then [] else Place(tie, rows[0], SortRows(tie, rows[1..]))
  }

  function RenderRows(tie: Collation, operations: seq<Operation>): seq<Row> {
    SortRows(tie, RowsOf(operations))
  }

  ghost predicate FewestFirst(rows: seq<Row>) {
    forall i, j :: 0 <= i < j < |rows| ==> rows[i].parameterCount <= rows[j].parameterCount
  }

  lemma {:induction false} PrecedesByCount(tie: Collation, row: Row, rows: seq<Row>)
    ensures rows != [] ==> if Precedes(tie, row, rows[0]) then row.parameterCount <= rows[0].parameterCount
                           else rows[0].parameterCount <= row.parameterCount
  {
  }

  lemma {:induction false} PlaceSorts(tie: Collation, row: Row, rows: seq<Row>)
    requires FewestFirst(rows)
    ensures FewestFirst(Place(tie, row, rows))
  {
    hide Precedes;
    PrecedesByCount(tie, row, rows);
    if rows != [] && !Precedes(tie, row, rows[0]) {
      PlaceSorts(tie, row, rows[1..]);
      assert rows == [rows[0]] + rows[1..];
      var rest := Place(tie, row, rows[1..]);
      forall i | 0 <= i < |rest| ensures rows[0].parameterCount <= rest[i].parameterCount {
        assert rest[i] in rest;
      }
    }
  }

  lemma {:induction false} PlaceKeeps(tie: Collation, row: Row, rows: seq<Row>)
    ensures multiset(Place(tie, row, rows)) == multiset{row} + multiset(rows)
  {
    hide Precedes;
    if rows != [] && !Precedes(tie, row, rows[0]) {
      PlaceKeeps(tie, row, rows[1..]);
      assert rows == [rows[0]] + rows[1..];
    }
  }

  lemma {:induction false} SortSorts(tie: Collation, rows: seq<Row>)
    ensures FewestFirst(SortRows(tie, rows)) && multiset(SortRows(tie, rows)) == multiset(rows)
  {
    if rows != [] {
      assert rows == [rows[0]] + rows[1..];
      SortSorts(tie, rows[1..]);
      PlaceSorts(tie, rows[0], SortRows(tie, rows[1..]));
      PlaceKeeps(tie, rows[0], SortRows(tie, rows[1..]));
    }
  }

  ghost predicate Applies(fold: Fold, row: Row, verb: string, path: string) {
    row.verb == verb && Accepts(fold, row.literal, path)
  }

  /** The first row of the method whose pattern accepts the path. */
  ghost function FindRow(fold: Fold, rows: seq<Row>, verb: string, path: string): Option<Row> {
    if rows == [] then None
    else if Applies(fold, rows[0], verb, path) then Some(rows[0])
    else FindRow(fold, rows[1..], verb, path)
  }

  lemma {:induction false} FindsTheFirst(fold: Fold, rows: seq<Row>, verb: string, path: string)
    ensures FindRow(fold, rows, verb, path).None? ==> forall r :: r in rows ==> !Applies(fold, r, verb, path)
    ensures FindRow(fold, rows, verb, path).Some? ==>
              var row := FindRow(fold, rows, verb, path).value;
              && row in rows && Applies(fold, row, verb, path)
              && (FewestFirst(rows) ==>
                    forall r :: r in rows && Applies(fold, r, verb, path) ==> row.parameterCount <= r.parameterCount)
  {
    hide Applies;
    if rows != [] {
      assert rows == [rows[0]] + rows[1..];
      FindsTheFirst(fold, rows[1..], verb, path);
    }
  }

  ghost predicate Serves(fold: Fold, operation: Operation, verb: string, path: string) {
    operation.verb == verb && Agrees(fold, Split(operation.route, '/'), Split(path, '/'))
  }

  /**
   * A request is judged by an operation of its method whose template it fits, and by none that leaves
   * more to parameters than another it fits; a request that fits no operation meets no row.
   */
  lemma {:induction false} MostSpecificOperationDecides(
    fold: Fold, tie: Collation, operations: seq<Operation>, verb: string, path: string)
    requires KeepsSlash(fold) && forall o :: o in operations ==> OneLine(Split(o.route, '/'))
    ensures FindRow(fold, RenderRows(tie, operations), verb, path).None? ==>
              forall o :: o in operations ==> !Serves(fold, o, verb, path)
    ensures FindRow(fold, RenderRows(tie, operations), verb, path).Some? ==>
              exists o :: o in operations && FindRow(fold, RenderRows(tie, operations), verb, path).value == RowOf(o)
                          && Serves(fold, o, verb, path)
                          && forall p :: p in operations && Serves(fold, p, verb, path) ==>
                               ParameterCount(o.route) <= ParameterCount(p.route)
  {
    hide Agrees, CompileTemplate, ParameterCount, Applies, FewestFirst;
    var rows, sorted := RowsOf(operations), RenderRows(tie, operations);
    SortSorts(tie, rows);
    FindsTheFirst(fold, sorted, verb, path);
    forall o | o in operations
      ensures RowOf(o) in sorted && (Applies(fold, RowOf(o), verb, path) <==> Serves(fold, o, verb, path))
    {
      var i :| 0 <= i < |operations| && operations[i] == o;
      assert rows[i] in multiset(sorted);
      RowServes(fold, o, verb, path);
    }
    var found := FindRow(fold, sorted, verb, path);
    if found.Some? {
      assert found.value in multiset(rows);
      var i :| 0 <= i < |rows| && rows[i] == found.value;
      assert operations[i] in operations;
    }
  }

  lemma {:induction false} RowServes(fold: Fold, o: Operation, verb: string, path: string)
    requires KeepsSlash(fold) && OneLine(Split(o.route, '/'))
    ensures Applies(fold, RowOf(o), verb, path) <==> Serves(fold, o, verb, path)
  {
    CompiledTemplateIsFaithful(fold, o.route, path);
  }

  /** With as many parameters, rows stand in the collation's order of `<VERB> <route>`. */
  ghost predicate Ordered(tie: Collation, a: Row, b: Row) {
    || a.parameterCount < b.parameterCount
    || (a.parameterCount == b.parameterCount && tie(a.verb + " " + a.route, b.verb + " " + b.route))
  }

  /** A collation orders any two keys, and consistently. */
  ghost predicate IsOrder(tie: Collation) {
    && (forall x, y :: tie(x, y) || tie(y, x))
    && forall x, y, z :: tie(x, y) && tie(y, z) ==> tie(x, z)
  }

  ghost predicate AllOrdered(tie: Collation, rows: seq<Row>) {
    forall i, j :: 0 <= i < j < |rows| ==> Ordered(tie, rows[i], rows[j])
  }

  lemma {:induction false} OrderedOneWay(tie: Collation, a: Row, b: Row)
    requires IsOrder(tie)
    ensures if Precedes(tie, a, b) then Ordered(tie, a, b) else Ordered(tie, b, a)
  {
  }

  lemma {:induction false} OrderedOnward(tie: Collation, a: Row, b: Row, c: Row)
    requires IsOrder(tie) && Ordered(tie, a, b) && Ordered(tie, b, c)
    ensures Ordered(tie, a, c)
  {
  }

  lemma {:induction false} PlaceOrders(tie: Collation, row: Row, rows: seq<Row>)
    requires IsOrder(tie) && AllOrdered(tie, rows)
    ensures AllOrdered(tie, Place(tie, row, rows))
  {
    hide Ordered, Precedes, IsOrder;
    if rows != [] {
      OrderedOneWay(tie, row, rows[0]);
      if Precedes(tie, row, rows[0]) {
        forall j | 1 <= j < |rows| ensures Ordered(tie, row, rows[j]) {
          OrderedOnward(tie, row, rows[0], rows[j]);
        }
      } else {
        PlaceOrders(tie, row, rows[1..]);
        var rest := Place(tie, row, rows[1..]);
        forall i | 0 <= i < |rest| ensures Ordered(tie, rows[0], rest[i]) {
          assert rest[i] in rest;
          if rest[i] != row {
            var k :| 0 <= k < |rows[1..]| && rows[1..][k] == rest[i];
            assert rows[k + 1] == rest[i];
          }
        }
      }
    }
  }

  /** The rows come out by parameter count, then by verb and route. */
  lemma {:induction false} RowsAreOrdered(tie: Collation, rows: seq<Row>)
    requires IsOrder(tie)
    ensures AllOrdered(tie, SortRows(tie, rows))
  {
    hide Ordered, Precedes, IsOrder;
    if rows != [] {
      RowsAreOrdered(tie, rows[1..]);
      PlaceOrders(tie, rows[0], SortRows(tie, rows[1..]));
    }
  }
}
