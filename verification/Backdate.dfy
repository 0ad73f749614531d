/** Flow-produced orders moved into the past: how far each one goes, and what moves with it. */
module Backdate {
  import opened Basics
  import opened Text

  // ---------------------------------------------------------------- how many days back

  const OLDEST_DAYS := 80
  const DAY := 86_400_000

  /** Half the gap between 1 and the next double: the largest relative error of one operation. */
  const UNIT: real := 1.0 / 9007199254740992.0

  /** How a result is rounded to a double. */
  type Rounding = real -> real

  /**
   * What of IEEE 754 binary64, rounding to nearest, the ages depend on: rounding keeps order, leaves
   * whole numbers and multiples of 2^-53 between 0 and 1 alone, errs by at most one part in 2^53 on
   * numbers of ordinary size, and between 1/2 and 1 goes to the nearest multiple of 2^-53.
   */
  ghost predicate RoundsLikeDouble(fl: Rounding) {
    && (forall x, y :: x <= y ==> fl(x) <= fl(y))
    && (forall k :: -9007199254740992 <= k <= 9007199254740992 ==> fl(Whole(k)) == Whole(k))
    && (forall m :: 0 <= m <= 9007199254740992 ==> fl(Tick(m)) == Tick(m))
    && (forall x :: 0.001 <= x <= 1000.0 ==> -(x * UNIT) <= fl(x) - x <= x * UNIT)
    && (forall x :: 0.5 <= x <= 1.0 ==> exists m :: fl(x) == Tick(m) && -UNIT <= 2.0 * (fl(x) - x) <= UNIT)
  }

  function Whole(k: int): real {
    k as real
  }

  /** A multiple of 2^-53. */
  function Tick(m: int): real {
    m as real * UNIT
  }

  /** JavaScript's `Math.round`: the nearest whole number, a half going up. */
  function Round(x: real): (r: int)
    ensures 2.0 * r as real - 1.0 <= 2.0 * x < 2.0 * r as real + 1.0
  {
    (x + 0.5).Floor
  }

  /** The days one order is aged, before they are rounded to a whole number. */
  function DaysOf(fl: Rounding, index: nat, count: nat): real
    requires index < count
  {
    fl(OLDEST_DAYS as real * fl(1.0 - fl(index as real / count as real)))
  }

  /** The age of the order placed `index`-th of `count`. */
  function AgeOf(fl: Rounding, index: nat, count: nat): int
    requires index < count
  {
    Round(DaysOf(fl, index, count))
  }

  lemma {:induction false} RoundIsMonotone(x: real, y: real)
    requires x <= y
    ensures Round(x) <= Round(y)
  {
    hide Round;
    assert 2.0 * Round(x) as real - 1.0 < 2.0 * Round(y) as real + 1.0;
  }

  lemma {:induction false} FractionGrows(i: nat, j: nat, count: nat)
    requires i <= j < count
    ensures 0.0 <= i as real / count as real <= j as real / count as real <= 1.0
  {
    var n, x, y := count as real, i as real / count as real, j as real / count as real;
    assert x * n == i as real && y * n == j as real;
    assert (y - x) * n >= 0.0 && (1.0 - y) * n >= 0.0;
  }

  lemma {:induction false} KeepsOrder(fl: Rounding, x: real, y: real)
    requires RoundsLikeDouble(fl) && x <= y
    ensures fl(x) <= fl(y)
  {
  }

  lemma {:induction false} KeepsWholes(fl: Rounding, k: int)
    requires RoundsLikeDouble(fl) && 0 <= k <= 80
    ensures fl(k as real) == k as real
  {
    assert fl(Whole(k)) == Whole(k);
  }

  lemma {:induction false} ErrsLittle(fl: Rounding, x: real)
    requires RoundsLikeDouble(fl) && 0.001 <= x <= 1000.0
    ensures -(x * UNIT) <= fl(x) - x <= x * UNIT
  {
  }

  /** Nobody is aged more than somebody placed earlier, and nobody less than nothing. */
  lemma {:induction false} OlderFirst(fl: Rounding, i: nat, j: nat, count: nat)
    requires RoundsLikeDouble(fl) && i <= j < count
    ensures 0 <= AgeOf(fl, j, count) <= AgeOf(fl, i, count)
  {
    hide RoundsLikeDouble, Round;
    FractionGrows(i, j, count);
    var x, y := i as real / count as real, j as real / count as real;
    KeepsWholes(fl, 1);
    KeepsWholes(fl, 0);
    KeepsOrder(fl, x, y);
    KeepsOrder(fl, y, 1.0);
    KeepsOrder(fl, 0.0, 1.0 - fl(y));
    KeepsOrder(fl, 1.0 - fl(y), 1.0 - fl(x));
    KeepsOrder(fl, 80.0 * fl(1.0 - fl(y)), 80.0 * fl(1.0 - fl(x)));
    KeepsOrder(fl, 0.0, 80.0 * fl(1.0 - fl(y)));
    RoundIsMonotone(DaysOf(fl, j, count), DaysOf(fl, i, count));
    RoundIsMonotone(0.0, DaysOf(fl, j, count));
  }

  lemma {:induction false} FirstAge(fl: Rounding, count: nat)
    requires RoundsLikeDouble(fl) && count > 0
    ensures AgeOf(fl, 0, count) == OLDEST_DAYS
  {
    hide RoundsLikeDouble, Round;
    assert 0 as real / count as real == 0.0;
    KeepsWholes(fl, 0);
    KeepsWholes(fl, 1);
    KeepsWholes(fl, 80);
  }

  /** What the last order leaves of the whole, once its share has been rounded. */
  lemma {:induction false} LastShare(fl: Rounding, count: nat) returns (inverse: real, rest: real)
    requires RoundsLikeDouble(fl) && count > 0
    ensures inverse * count as real == 1.0
    ensures rest == 1.0 - fl((count - 1) as real / count as real)
    ensures 0.0 <= rest && inverse - UNIT <= rest <= inverse + UNIT
  {
    hide RoundsLikeDouble;
    var n := count as real;
    inverse := 1.0 / n;
    var share := (count - 1) as real / n;
    FractionGrows(count - 1, count - 1, count);
    SameQuotient(share, 1.0 - inverse, n);
    rest := 1.0 - fl(share);
    KeepsWholes(fl, 1);
    KeepsOrder(fl, share, 1.0);
    if count == 1 {
      KeepsWholes(fl, 0);
    } else {
      assert inverse <= 0.5 by {
        InverseBounds(inverse, count, 2);
      }
      ErrsLittle(fl, share);
    }
  }

  lemma {:induction false} SameQuotient(a: real, b: real, n: real)
    requires n > 0.0 && a * n == b * n
    ensures a == b
  {
    assert (a - b) * n == 0.0;
  }

  lemma {:induction false} InverseBounds(inverse: real, count: nat, k: nat)
    requires inverse * count as real == 1.0 && k > 0
    ensures count <= k ==> inverse * k as real >= 1.0
    ensures count >= k ==> inverse * k as real <= 1.0
  {
    assert inverse > 0.0;
    assert inverse * (k as real - count as real) == inverse * k as real - 1.0;
  }

  lemma {:induction false} LastAgeOfFew(fl: Rounding, count: nat)
    requires RoundsLikeDouble(fl) && 0 < count <= 159
    ensures AgeOf(fl, count - 1, count) >= 1
  {
    hide RoundsLikeDouble, Round;
    var inverse, rest := LastShare(fl, count);
    InverseBounds(inverse, count, 159);
    InverseBounds(inverse, count, 1);
    ErrsLittle(fl, rest);
    var share := fl(rest);
    ErrsLittle(fl, 80.0 * share);
    assert DaysOf(fl, count - 1, count) == fl(80.0 * share) > 0.5;
  }

  lemma {:induction false} LastAgeOfMany(fl: Rounding, count: nat)
    requires RoundsLikeDouble(fl) && count >= 161
    ensures AgeOf(fl, count - 1, count) == 0
  {
    hide RoundsLikeDouble, Round;
    OlderFirst(fl, count - 1, count - 1, count);
    var inverse, rest := LastShare(fl, count);
    InverseBounds(inverse, count, 161);
    var most := 1.0 / 161.0 + UNIT;
    KeepsOrder(fl, rest, most);
    ErrsLittle(fl, most);
    KeepsOrder(fl, 80.0 * fl(rest), 80.0 * fl(most));
    ErrsLittle(fl, 80.0 * fl(most));
    assert DaysOf(fl, count - 1, count) == fl(80.0 * fl(rest)) < 0.5;
  }

  lemma {:induction false} NearestTick(fl: Rounding)
    requires RoundsLikeDouble(fl)
    ensures fl(159.0 / 160.0) == Tick(8950904259398861)
  {
    var x := 159.0 / 160.0;
    var m :| fl(x) == Tick(m) && -UNIT <= 2.0 * (fl(x) - x) <= UNIT;
    assert x == 8950904259398860.8 * UNIT;
    assert 8950904259398860.3 <= m as real <= 8950904259398861.3;
  }

  lemma {:induction false} KeepsTicks(fl: Rounding, m: int)
    requires RoundsLikeDouble(fl) && 0 <= m <= 9007199254740992
    ensures fl(Tick(m)) == Tick(m)
  {
  }

  /**
   * At 160 orders the exact share leaves half a day, but 159/160 is no double: the nearest one lies
   * above it, so less than half a day is left and the last order is dated today.
   */
  lemma {:induction false} LastAgeOf160(fl: Rounding)
    requires RoundsLikeDouble(fl)
    ensures fl(159.0 / 160.0) == Tick(8950904259398861)
    ensures DaysOf(fl, 159, 160) == Tick(4503599627370480) < 0.5
    ensures AgeOf(fl, 159, 160) == 0
  {
    hide RoundsLikeDouble, Round;
    NearestTick(fl);
    assert 159 as real / 160 as real == 159.0 / 160.0;
    assert 1.0 - Tick(8950904259398861) == Tick(56294995342131);
    KeepsTicks(fl, 56294995342131);
    assert 80.0 * Tick(56294995342131) == Tick(4503599627370480);
    KeepsTicks(fl, 4503599627370480);
  }

  /**
   * The spread starts at the oldest day and never goes up again; it ends before today exactly when
   * there are fewer than 160 orders.
   */
  lemma {:induction false} SpreadRunsDown(fl: Rounding, count: nat)
    requires RoundsLikeDouble(fl) && count > 0
    ensures AgeOf(fl, 0, count) == OLDEST_DAYS
    ensures forall i, j :: 0 <= i <= j < count ==> 0 <= AgeOf(fl, j, count) <= AgeOf(fl, i, count)
    ensures (forall i :: 0 <= i < count ==> AgeOf(fl, i, count) >= 1) <==> count <= 159
  {
    hide AgeOf, RoundsLikeDouble;
    FirstAge(fl, count);
    forall i, j | 0 <= i <= j < count ensures 0 <= AgeOf(fl, j, count) <= AgeOf(fl, i, count) {
      OlderFirst(fl, i, j, count);
    }
    if count <= 159 {
      LastAgeOfFew(fl, count);
    } else if count == 160 {
      LastAgeOf160(fl);
    } else {
      LastAgeOfMany(fl, count);
    }
  }

  /** The ages of all orders: the spread over the placed ones, then the one aged by hand, then the windows. */
  function AgesOf(fl: Rounding, placed: seq<string>, longAgo: string, windows: map<string, int>): map<string, int> {
    Spread(fl, placed, |placed|)[longAgo := OLDEST_DAYS] + windows
  }

  function Spread(fl: Rounding, placed: seq<string>, n: nat): map<string, int>
    requires n <= |placed|
  {
    if n == 0 then map[] else Spread(fl, placed, n - 1)[placed[n - 1] := AgeOf(fl, n - 1, |placed|)]
  }

  lemma {:induction false} SpreadAges(fl: Rounding, placed: seq<string>, n: nat)
    requires n <= |placed| && Distinct(placed)
    ensures forall i :: 0 <= i < n ==> placed[i] in Spread(fl, placed, n) && Spread(fl, placed, n)[placed[i]] == AgeOf(fl, i, |placed|)
  {
    hide AgeOf;
    if n > 0 {
      SpreadAges(fl, placed, n - 1);
    }
  }

  /** Backdated by the final ages, overrides included, the spread orders keep the sequence they were placed in. */
  lemma {:induction false} DatesStayInPlacementOrder(fl: Rounding, placed: seq<string>, longAgo: string,
                                                     windows: map<string, int>, date: string -> int, i: nat, j: nat)
    requires RoundsLikeDouble(fl) && Distinct(placed) && i <= j < |placed|
    requires longAgo !in placed && forall order :: order in windows ==> order !in placed
    requires date(placed[i]) <= date(placed[j])
    ensures var ages := AgesOf(fl, placed, longAgo, windows);
            && placed[i] in ages && placed[j] in ages
            && date(placed[i]) - ages[placed[i]] * DAY <= date(placed[j]) - ages[placed[j]] * DAY
  {
    hide AgeOf, RoundsLikeDouble;
    SpreadAges(fl, placed, |placed|);
    OlderFirst(fl, i, j, |placed|);
  }

  /** The order aged by hand stays behind an earlier one exactly when the time between them makes up for the extra age. */
  lemma {:induction false} LongAgoMovesAhead(fl: Rounding, placed: seq<string>, longAgo: string,
                                             windows: map<string, int>, date: string -> int, i: nat)
    requires RoundsLikeDouble(fl) && Distinct(placed) && i < |placed|
    requires longAgo !in placed && longAgo !in windows && forall order :: order in windows ==> order !in placed
    ensures var ages := AgesOf(fl, placed, longAgo, windows);
            && placed[i] in ages && longAgo in ages
            && (date(placed[i]) - ages[placed[i]] * DAY <= date(longAgo) - ages[longAgo] * DAY <==>
                (OLDEST_DAYS - AgeOf(fl, i, |placed|)) * DAY <= date(longAgo) - date(placed[i]))
  {
    hide AgeOf, RoundsLikeDouble;
    SpreadAges(fl, placed, |placed|);
  }

  // ---------------------------------------------------------------- the trail of an order

  /** A stored date column: a moment, or an explicit null. */
  datatype Stored = Date(ms: int) | NullDate

  /** One row of one collection, the order it belongs to, its dates by path, and the embedded objects it has. */
  datatype Row = Row(collection: string, order: string, dates: map<string, Stored>, objects: set<string>)

  /** The date columns of one collection that move with an order; `guard` must exist for the row to be touched. */
  datatype Trail = Trail(collection: string, fields: seq<string>, guard: Option<string>)

  const TRAILS: seq<Trail> := [
    Trail("orders", ["createdAt", "updatedAt", "deletedAt", "withdrawUntil", "conformityUntil"], None),
    Trail("orders", ["fulfillment.lastDeliveredAt"], Some("fulfillment.lastDeliveredAt")),
    Trail("payments", ["createdAt", "updatedAt", "receivedAt"], None),
    Trail("fulfillmentorders", ["createdAt", "updatedAt", "agreedAt", "expectedAt"], None),
    Trail("shipments", ["createdAt", "updatedAt", "shippedAt", "deliveredAt"], None),
    Trail("reservations", ["createdAt", "updatedAt", "expiresAt"], None),
    Trail("stockmovements", ["createdAt", "updatedAt"], None),
    Trail("auditlogs", ["timestamp"], None)
  ]

  /** One `updateMany`: an order, how far back, and which collection's share of it. */
  datatype Move = Move(trail: nat, order: string, days: int)

  ghost predicate ValidMove(m: Move) {
    m.trail < |TRAILS|
  }

  /** `$dateSubtract`, and `$$REMOVE` where it answers null. */
  function ShiftStage(fields: seq<string>, days: int, dates: map<string, Stored>): map<string, Stored> {
    map f | f in dates && !(f in fields && dates[f].NullDate?) ::
      if f in fields then Date(dates[f].ms - days * DAY) else dates[f]
  }

  /** A `$set` on a dotted path creates the object in front of the dot. */
  function ObjectsSet(fields: seq<string>): set<string> {
    set f | f in fields && '.' in f :: Split(f, '.')[0]
  }

  lemma {:induction false} ObjectOfPath(embedded: string, name: string)
    requires '.' !in embedded
    ensures ObjectsSet([embedded + "." + name]) == {embedded}
    ensures '.' !in name ==> ObjectsSet([name]) == {}
  {
    SplitCons(embedded, name, '.');
    assert embedded + "." + name in [embedded + "." + name] && '.' in embedded + "." + name;
  }

  predicate Selects(trail: Trail, order: string, row: Row) {
    && row.collection == trail.collection
    && row.order == order
    && (trail.guard.None? || trail.guard.value in row.dates)
  }

  function MoveRow(m: Move, row: Row): Row
    requires ValidMove(m)
  {
    if Selects(TRAILS[m.trail], m.order, row)
    then row.(dates := ShiftStage(TRAILS[m.trail].fields, m.days, row.dates),
              objects := row.objects + ObjectsSet(TRAILS[m.trail].fields))
    else row
  }

  function MoveAll(moves: seq<Move>, row: Row): Row
    requires forall m :: m in moves ==> ValidMove(m)
  {
    if moves == [] then row else MoveAll(moves[1..], MoveRow(moves[0], row))
  }

  /** The demo database's dated rows, rewritten in place. */
  class History {
    var rows: seq<Row>

    /** One mover call. */
    method UpdateMany(m: Move)
      requires ValidMove(m)
      modifies this
      ensures |rows| == |old(rows)| && forall i :: 0 <= i < |rows| ==> rows[i] == MoveRow(m, old(rows)[i])
    {
      for i := 0 to |rows|
        invariant |rows| == |old(rows)|
        invariant forall k :: 0 <= k < i ==> rows[k] == MoveRow(m, old(rows)[k])
        invariant forall k :: i <= k < |rows| ==> rows[k] == old(rows)[k]
      {
        var trail := TRAILS[m.trail];
        if Selects(trail, m.order, rows[i]) {
          rows := rows[i := rows[i].(dates := ShiftStage(trail.fields, m.days, rows[i].dates),
                                        objects := rows[i].objects + ObjectsSet(trail.fields))];
        }
      }
    }

    /** The writes of a whole backdating, in whatever order they land. */
    method Backdate(moves: seq<Move>)
      requires forall m :: m in moves ==> ValidMove(m)
      modifies this
      ensures |rows| == |old(rows)| && forall i :: 0 <= i < |rows| ==> rows[i] == MoveAll(moves, old(rows)[i])
    {
      assert moves[0..] == moves;
      for i := 0 to |moves|
        invariant |rows| == |old(rows)|
        invariant forall m :: m in moves[i..] ==> ValidMove(m)
        invariant forall k :: 0 <= k < |rows| ==> MoveAll(moves[i..], rows[k]) == MoveAll(moves, old(rows)[k])
      {
        assert moves[i..][1..] == moves[i + 1..];
        UpdateMany(moves[i]);
      }
    }
  }

  /** Exactly one write per collection share of every order aged more than nothing, in some order. */
  ghost predicate Schedules(moves: seq<Move>, ages: map<string, int>) {
    && Distinct(moves)
    && forall m :: m in moves <==> ValidMove(m) && m.order in ages && m.days == ages[m.order] > 0
  }

  /** Whether a column of a collection is one of those that move. */
  ghost predicate Tracked(collection: string, f: string) {
    exists k :: 0 <= k < |TRAILS| && TRAILS[k].collection == collection && f in TRAILS[k].fields
  }

  ghost predicate Touches(m: Move, row: Row, f: string)
    requires ValidMove(m)
  {
    m.order == row.order && TRAILS[m.trail].collection == row.collection && f in TRAILS[m.trail].fields
  }

  /** No column is in the share of two movers of its collection. */
  lemma {:induction false} OneTrailPerColumn(j: nat, k: nat, f: string)
    requires j < |TRAILS| && k < |TRAILS| && TRAILS[j].collection == TRAILS[k].collection
    requires f in TRAILS[j].fields && f in TRAILS[k].fields
    ensures j == k
  {
  }

  /** The column as it is `days` earlier: absent stays absent, and an explicit null goes. */
  ghost predicate MovedBack(was: map<string, Stored>, now: map<string, Stored>, f: string, days: int) {
    && (f in now <==> f in was && was[f].Date?)
    && (f in now ==> now[f] == Date(was[f].ms - days * DAY))
  }

  ghost predicate Untouched(was: map<string, Stored>, now: map<string, Stored>, f: string) {
    (f in now <==> f in was) && (f in was ==> now[f] == was[f])
  }

  lemma {:induction false} OneMove(m: Move, row: Row, f: string)
    requires ValidMove(m)
    ensures var after := MoveRow(m, row);
            && after.collection == row.collection && after.order == row.order
            && if Touches(m, row, f) then MovedBack(row.dates, after.dates, f, m.days)
               else Untouched(row.dates, after.dates, f)
  {
    if f in TRAILS[m.trail].fields {
      GuardIsItsOnlyField(m.trail, f);
    }
  }

  lemma {:induction false} GuardIsItsOnlyField(k: nat, f: string)
    requires k < |TRAILS| && f in TRAILS[k].fields
    ensures TRAILS[k].guard.None? || TRAILS[k].guard.value == f
  {
  }

  lemma {:induction false} OnlyOneMove(moves: seq<Move>, row: Row, f: string, only: Move)
    requires Distinct(moves) && forall m :: m in moves ==> ValidMove(m)
    requires forall m :: m in moves && Touches(m, row, f) ==> m == only
    ensures var after := MoveAll(moves, row);
            && after.collection == row.collection && after.order == row.order
            && if only in moves && Touches(only, row, f) then MovedBack(row.dates, after.dates, f, only.days)
               else Untouched(row.dates, after.dates, f)
  {
    hide MoveRow, Touches;
    if moves != [] {
      OneMove(moves[0], row, f);
      var next := MoveRow(moves[0], row);
      forall m | m in moves ensures Touches(m, next, f) == Touches(m, row, f) {
        SameRowTouched(m, row, next, f);
      }
      assert moves == [moves[0]] + moves[1..] && moves[0] !in moves[1..];
      OnlyOneMove(moves[1..], next, f, only);
    }
  }

  lemma {:induction false} SameRowTouched(m: Move, row: Row, next: Row, f: string)
    requires ValidMove(m) && next.collection == row.collection && next.order == row.order
    ensures Touches(m, next, f) == Touches(m, row, f)
  {
  }

  /** The columns of a collection that move with an order. */
  function MovingColumns(collection: string): set<string> {
    match collection
    case "orders" => {"createdAt", "updatedAt", "deletedAt", "withdrawUntil", "conformityUntil", "fulfillment.lastDeliveredAt"}
    case "payments" => {"createdAt", "updatedAt", "receivedAt"}
    case "fulfillmentorders" => {"createdAt", "updatedAt", "agreedAt", "expectedAt"}
    case "shipments" => {"createdAt", "updatedAt", "shippedAt", "deliveredAt"}
    case "reservations" => {"createdAt", "updatedAt", "expiresAt"}
    case "stockmovements" => {"createdAt", "updatedAt"}
    case "auditlogs" => {"timestamp"}
    case _ => {}
  }

  lemma {:induction false} TrackedExactly(collection: string, f: string)
    ensures Tracked(collection, f) <==> f in MovingColumns(collection)
  {
    assert |TRAILS| == 8;
    assert Tracked(collection, f) <==>
           (|| IsOf(0, collection, f) || IsOf(1, collection, f) || IsOf(2, collection, f) || IsOf(3, collection, f)
            || IsOf(4, collection, f) || IsOf(5, collection, f) || IsOf(6, collection, f) || IsOf(7, collection, f));
  }

  predicate IsOf(k: nat, collection: string, f: string)
    requires k < |TRAILS|
  {
    TRAILS[k].collection == collection && f in TRAILS[k].fields
  }

  /**
   * However the writes of a backdating interleave, every tracked date of every row of an order moves
   * by that order's own age, once; no absent date appears, and nothing else changes.
   */
  lemma {:induction false} WholeTrailMovesTogether(moves: seq<Move>, ages: map<string, int>, row: Row, f: string)
    requires Schedules(moves, ages)
    ensures var after := MoveAll(moves, row);
            && after.collection == row.collection && after.order == row.order
            && if row.order in ages && ages[row.order] > 0 && Tracked(row.collection, f)
               then MovedBack(row.dates, after.dates, f, ages[row.order])
               else Untouched(row.dates, after.dates, f)
  {
    hide MoveAll, MovedBack, Untouched;
    if row.order in ages && ages[row.order] > 0 && Tracked(row.collection, f) {
      var k :| 0 <= k < |TRAILS| && TRAILS[k].collection == row.collection && f in TRAILS[k].fields;
      var only := Move(k, row.order, ages[row.order]);
      forall m | m in moves && Touches(m, row, f) ensures m == only {
        OneTrailPerColumn(m.trail, k, f);
      }
      OnlyOneMove(moves, row, f, only);
    } else {
      forall m | m in moves ensures !Touches(m, row, f) {
      }
      OnlyOneMove(moves, row, f, Move(0, "", 0));
    }
  }

  /** Two dates of one order, in whatever collections, stay as far apart as they were. */
  lemma {:induction false} GapsArePreserved(moves: seq<Move>, ages: map<string, int>, a: Row, f: string, b: Row, g: string)
    requires Schedules(moves, ages) && a.order == b.order
    requires Tracked(a.collection, f) && Tracked(b.collection, g)
    requires f in a.dates && a.dates[f].Date? && g in b.dates && b.dates[g].Date?
    ensures var x, y := MoveAll(moves, a), MoveAll(moves, b);
            && f in x.dates && x.dates[f].Date? && g in y.dates && y.dates[g].Date?
            && x.dates[f].ms - y.dates[g].ms == a.dates[f].ms - b.dates[g].ms
  {
    hide MoveAll, Schedules, Tracked;
    WholeTrailMovesTogether(moves, ages, a, f);
    WholeTrailMovesTogether(moves, ages, b, g);
  }

  // ---------------------------------------------------------------- no object is created

  /** Every date at a dotted path lies in an object the row has. */
  ghost predicate HoldsItsDates(row: Row) {
    forall f :: f in row.dates && '.' in f ==> Split(f, '.')[0] in row.objects
  }

  const PLAIN: set<string> := {"createdAt", "updatedAt", "deletedAt", "withdrawUntil", "conformityUntil", "receivedAt", "agreedAt",
                               "expectedAt", "shippedAt", "deliveredAt", "expiresAt", "timestamp"}

  lemma {:induction false} PlainHasNoDot(f: string)
    requires f in PLAIN
    ensures '.' !in f
  {
  }

  lemma {:induction false} OthersArePlain(k: nat, f: string)
    requires k < |TRAILS| && k != 1 && f in TRAILS[k].fields
    ensures f in PLAIN
  {
  }

  /** A mover of a dotted path only selects rows that carry that date. */
  lemma {:induction false} DottedPathsAreGuarded(k: nat, f: string)
    requires k < |TRAILS| && f in TRAILS[k].fields && '.' in f
    ensures TRAILS[k].guard == Some(f)
  {
    if k != 1 {
      OthersArePlain(k, f);
      PlainHasNoDot(f);
    }
  }

  lemma {:induction false} MoveCreatesNoObject(m: Move, row: Row)
    requires ValidMove(m) && HoldsItsDates(row)
    ensures MoveRow(m, row).objects == row.objects && HoldsItsDates(MoveRow(m, row))
  {
    hide Split;
    if Selects(TRAILS[m.trail], m.order, row) {
      forall f | f in TRAILS[m.trail].fields && '.' in f ensures Split(f, '.')[0] in row.objects {
        DottedPathsAreGuarded(m.trail, f);
      }
    }
  }

  /** A backdating creates no embedded object: an order without a fulfilment summary still has none. */
  lemma {:induction false} NoObjectIsCreated(moves: seq<Move>, row: Row)
    requires (forall m :: m in moves ==> ValidMove(m)) && HoldsItsDates(row)
    ensures MoveAll(moves, row).objects == row.objects
  {
    hide MoveRow, HoldsItsDates;
    if moves != [] {
      assert moves[0] in moves;
      MoveCreatesNoObject(moves[0], row);
      NoObjectIsCreated(moves[1..], MoveRow(moves[0], row));
    }
  }
}
