/** Dependency waves: which seeding steps may start together, and in what order. */
module Waves {
  import opened Basics

  /** One named step; `after` may be absent, and may name steps the set does not carry. */
  datatype WaveEntry = WaveEntry(after: Option<seq<string>>)

  /** A record of steps: its keys in order, each with its entry. */
  datatype Entries = Entries(names: seq<string>, steps: map<string, WaveEntry>) {
    ghost predicate Valid() {
      && Distinct(names)
      && forall x :: x in names <==> x in steps
    }

    function After(name: string): seq<string> {
      if name in steps && steps[name].after.Some? then steps[name].after.value else []
    }

    /** `name` has nothing outstanding among `remaining`. */
    predicate IsReady(name: string, remaining: seq<string>) {
      forall d :: d in After(name) ==> d !in remaining
    }

    /** `x` waits for `y`, a step of the same set. */
    predicate Waits(x: string, y: string) {
      x in names && y in names && y in After(x)
    }

    /** Each element waits for the next one. */
    ghost predicate IsChain(c: seq<string>) {
      && c != []
      && (forall i :: 0 <= i < |c| ==> c[i] in names)
      && forall i, j :: 0 <= i && j == i + 1 < |c| ==> Waits(c[i], c[j])
    }

    ghost predicate IsCycle(c: seq<string>) {
      |c| >= 2 && IsChain(c) && c[0] == c[|c| - 1]
    }
  }

  function Ready(e: Entries, remaining: seq<string>): seq<string> {
    Filter(remaining, x => e.IsReady(x, remaining))
  }

  function Blocked(e: Entries, remaining: seq<string>): seq<string> {
    Filter(remaining, x => !e.IsReady(x, remaining))
  }

  /** The waves that put `remaining` in order, or the steps left stuck. */
  function Plan(e: Entries, remaining: seq<string>): Result<seq<seq<string>>, seq<string>>
    decreases |remaining|
  {
    if remaining == [] then Success([])
    else if Ready(e, remaining) == [] then Failure(remaining)
    else
      FilterPartitions(remaining, x => e.IsReady(x, remaining), x => !e.IsReady(x, remaining));
      match Plan(e, Blocked(e, remaining))
      case Success(waves) => Success([Ready(e, remaining)] + waves)
      case Failure(stuck) => Failure(stuck)
  }

  /** Planning what remains is one wave, then planning what it leaves. */
  lemma {:induction false} PlanStep(e: Entries, remaining: seq<string>)
    ensures remaining != [] && Ready(e, remaining) == [] ==> Plan(e, remaining) == Failure(remaining)
    ensures remaining != [] && Ready(e, remaining) != [] ==>
              && |Blocked(e, remaining)| < |remaining|
              && Plan(e, remaining) == match Plan(e, Blocked(e, remaining))
                                       case Success(waves) => Success([Ready(e, remaining)] + waves)
                                       case Failure(stuck) => Failure(stuck)
  {
    FilterPartitions(remaining, x => e.IsReady(x, remaining), x => !e.IsReady(x, remaining));
  }

  lemma {:induction false} PlanEnds(e: Entries)
    ensures Plan(e, []) == Success([])
  {
  }

  /** Groups the steps into waves, or refuses with the steps that can never start. */
  method WaveOrder(e: Entries) returns (r: Result<seq<seq<string>>, seq<string>>)
    ensures r == Plan(e, e.names)
  {
    hide Plan, Filter;
    PlanEnds(e);
    var remaining := e.names;
    var waves: seq<seq<string>> := [];
    assert Plan(e, e.names).Success? ==> [] + Plan(e, e.names).value == Plan(e, e.names).value;
    while remaining != []
      invariant Plan(e, e.names) == match Plan(e, remaining)
                                    case Success(rest) => Success(waves + rest)
                                    case Failure(stuck) => Failure(stuck)
      decreases |remaining|
    {
      var ready := Ready(e, remaining);
      PlanStep(e, remaining);
      if ready == [] {
        return Failure(remaining);
      }
      var left := Filter(remaining, x => x !in ready);
      FilterSame(remaining, x => x !in ready, x => !e.IsReady(x, remaining));
      ghost var rest := Plan(e, left);
      assert rest.Success? ==> waves + ([ready] + rest.value) == (waves + [ready]) + rest.value;
      remaining := left;
      waves := waves + [ready];
    }
    assert waves + [] == waves;
    return Success(waves);
  }

  // ---------------------------------------------------------------- what is left after k waves

  function Remaining(e: Entries, k: nat): seq<string> {
    if k == 0 then e.names else Blocked(e, Remaining(e, k - 1))
  }

  lemma {:induction false} RemainingAmongNames(e: Entries, k: nat)
    ensures forall x :: x in Remaining(e, k) ==> x in e.names
  {
    if k > 0 {
      RemainingAmongNames(e, k - 1);
    }
  }

  lemma {:induction false} RemainingStep(e: Entries, k: nat, x: string)
    ensures x in Remaining(e, k + 1) <==>
            x in Remaining(e, k) && exists d :: d in e.After(x) && d in Remaining(e, k)
    ensures x in Ready(e, Remaining(e, k)) <==> x in Remaining(e, k) && x !in Remaining(e, k + 1)
  {
    hide Filter;
  }

  /** A step is still waiting after k waves exactly when k others stand in line before it. */
  lemma {:induction false} StillWaiting(e: Entries, k: nat, x: string)
    ensures x in Remaining(e, k) <==> exists c :: e.IsChain(c) && |c| == k + 1 && c[0] == x
  {
    hide Filter, Plan;
    if k == 0 {
      if x in e.names {
        assert e.IsChain([x]);
      }
    } else {
      if x in Remaining(e, k) {
        var c := LineBefore(e, k, x);
      }
      if exists c :: e.IsChain(c) && |c| == k + 1 && c[0] == x {
        var c :| e.IsChain(c) && |c| == k + 1 && c[0] == x;
        InLine(e, k, c);
      }
    }
  }

  /** The line in front of a step that still waits. */
  lemma {:induction false} LineBefore(e: Entries, k: nat, x: string) returns (c: seq<string>)
    requires x in Remaining(e, k)
    ensures e.IsChain(c) && |c| == k + 1 && c[0] == x
  {
    hide Filter, Plan, Blocked, Ready, Remaining;
    RemainingAmongNames(e, k);
    if k == 0 {
      c := [x];
    } else {
      RemainingStep(e, k - 1, x);
      var d :| d in e.After(x) && d in Remaining(e, k - 1);
      c := LineBefore(e, k - 1, d);
      RemainingAmongNames(e, k - 1);
      ChainCons(e, x, c);
      c := [x] + c;
    }
  }

  lemma {:induction false} InLine(e: Entries, k: nat, c: seq<string>)
    requires e.IsChain(c) && |c| == k + 1
    ensures c[0] in Remaining(e, k)
  {
    hide Filter, Plan, Blocked;
    if k > 0 {
      ChainSlice(e, c, 0, k);
      ChainSlice(e, c, 1, k + 1);
      InLine(e, k - 1, c[..k]);
      InLine(e, k - 1, c[1..]);
      assert e.Waits(c[0], c[1]);
      RemainingStep(e, k - 1, c[0]);
    }
  }

  lemma {:induction false} ChainCons(e: Entries, x: string, c: seq<string>)
    requires c != [] && e.IsChain(c) && e.Waits(x, c[0])
    ensures e.IsChain([x] + c)
  {
    var d := [x] + c;
    forall i, j | 0 <= i && j == i + 1 < |d| ensures e.Waits(d[i], d[j]) {
      if i > 0 {
        assert e.Waits(c[i - 1], c[j - 1]);
      }
    }
  }

  lemma {:induction false} ChainSlice(e: Entries, c: seq<string>, lo: nat, hi: nat)
    requires e.IsChain(c) && lo < hi <= |c|
    ensures e.IsChain(c[lo..hi])
  {
    var d := c[lo..hi];
    forall i, j | 0 <= i && j == i + 1 < |d| ensures e.Waits(d[i], d[j]) {
      assert e.Waits(c[lo + i], c[lo + j]);
    }
  }

  /** A chain longer than the set is wide runs in a circle. */
  lemma {:induction false} LongChainHasCycle(e: Entries, c: seq<string>) returns (i: nat, j: nat)
    requires e.IsChain(c) && |c| > |e.names|
    ensures i < j < |c| && e.IsCycle(c[i..j + 1])
  {
    CardAtMost(e.names);
    Pigeonhole(c, set x | x in e.names);
    i, j :| 0 <= i < j < |c| && c[i] == c[j];
    ChainSlice(e, c, i, j + 1);
  }

  /** A cycle never gets shorter: each of its members waits for another one, for ever. */
  lemma {:induction false} CycleStays(e: Entries, c: seq<string>, k: nat)
    requires e.IsCycle(c)
    ensures forall i :: 0 <= i < |c| ==> c[i] in Remaining(e, k)
  {
    hide Filter;
    if k > 0 {
      CycleStays(e, c, k - 1);
      forall i | 0 <= i < |c| ensures c[i] in Remaining(e, k) {
        var next := if i < |c| - 1 then i + 1 else 1;
        assert e.Waits(c[i], c[next]) by {
          assert e.Waits(c[next - 1], c[next]);
        }
      }
    }
  }

  // ---------------------------------------------------------------- the plan, wave by wave

  /** Wave i is what became ready after i waves, and nothing remains after the last. */
  ghost predicate CutInWaves(e: Entries, waves: seq<seq<string>>) {
    && Remaining(e, |waves|) == []
    && forall i :: 0 <= i < |waves| ==> waves[i] != [] && waves[i] == Ready(e, Remaining(e, i))
  }

  /** Some steps remain and none of them is ever ready. */
  ghost predicate StuckAt(e: Entries, m: nat) {
    Remaining(e, m) != [] && Ready(e, Remaining(e, m)) == []
  }

  lemma {:induction false} PlanByWave(e: Entries, k: nat, done: seq<seq<string>>)
    requires |done| == k
    requires forall i :: 0 <= i < k ==> done[i] != [] && done[i] == Ready(e, Remaining(e, i))
    ensures var p := Plan(e, Remaining(e, k));
            if p.Success? then CutInWaves(e, done + p.value)
            else exists m :: StuckAt(e, m) && p.error == Remaining(e, m)
    decreases |Remaining(e, k)|
  {
    hide Filter, Plan, Ready;
    var r := Remaining(e, k);
    PlanEnds(e);
    PlanStep(e, r);
    if r == [] {
      assert done + [] == done;
    } else if Ready(e, r) == [] {
      assert StuckAt(e, k);
    } else {
      PlanByWave(e, k + 1, done + [Ready(e, r)]);
      if Plan(e, Remaining(e, k + 1)).Success? {
        var waves := Plan(e, Remaining(e, k + 1)).value;
        assert done + ([Ready(e, r)] + waves) == (done + [Ready(e, r)]) + waves;
      }
    }
  }

  lemma {:induction false} PlanCuts(e: Entries)
    ensures var p := Plan(e, e.names);
            if p.Success? then CutInWaves(e, p.value)
            else exists m :: StuckAt(e, m) && p.error == Remaining(e, m)
  {
    hide Filter, Plan, CutInWaves;
    PlanByWave(e, 0, []);
    if Plan(e, e.names).Success? {
      assert [] + Plan(e, e.names).value == Plan(e, e.names).value;
    }
  }

  lemma {:induction false} StuckForGood(e: Entries, m: nat, k: nat)
    requires StuckAt(e, m) && k >= m
    ensures Remaining(e, k) == Remaining(e, m)
  {
    hide Filter, Plan;
    if k > m {
      StuckForGood(e, m, k - 1);
      var r := Remaining(e, m);
      forall x | x in r ensures !e.IsReady(x, r) {
        assert x !in Ready(e, r);
      }
      FilterAll(r, x => !e.IsReady(x, r));
    }
  }

  /** The line behind a step leads into a circle. */
  ghost predicate ReachesCycle(e: Entries, x: string) {
    exists c, i :: e.IsChain(c) && c[0] == x && 0 <= i < |c| - 1 && e.IsCycle(c[i..])
  }

  /** Whoever waits, however indirectly, for a cycle is never released. */
  lemma {:induction false} ChainTail(e: Entries, c: seq<string>)
    requires e.IsChain(c) && |c| > 1
    ensures e.IsChain(c[1..]) && c[0] in e.names && e.Waits(c[0], c[1])
  {
    ChainSlice(e, c, 1, |c|);
    assert c[1..] == c[1..|c|];
  }

  lemma {:induction false} NeverReleased(e: Entries, c: seq<string>, i: nat, k: nat)
    requires i < |c| && e.IsChain(c) && e.IsCycle(c[i..])
    ensures c[0] in Remaining(e, k)
    decreases i, k
  {
    hide Filter, Plan, Blocked, Ready;
    if i == 0 {
      assert c[0..] == c;
      CycleStays(e, c, k);
    } else {
      var tail := c[1..];
      ChainTail(e, c);
      assert tail[i - 1..] == c[i..];
      NeverReleased(e, tail, i - 1, k);
      if k > 0 {
        NeverReleased(e, c, i, k - 1);
        NeverReleased(e, tail, i - 1, k - 1);
        RemainingStep(e, k - 1, c[0]);
      }
    }
  }

  // ---------------------------------------------------------------- main results

  /** The refusal names exactly the steps from which a cycle can be reached. */
  lemma {:induction false} StuckStepsReachACycle(e: Entries, x: string)
    requires Plan(e, e.names).Failure?
    ensures x in Plan(e, e.names).error <==> ReachesCycle(e, x)
  {
    hide Filter, Plan, Remaining;
    PlanCuts(e);
    var m: nat :| StuckAt(e, m) && Plan(e, e.names).error == Remaining(e, m);
    if x in Remaining(e, m) {
      StuckForGood(e, m, m + |e.names|);
      var c := LineBefore(e, m + |e.names|, x);
      var i, j := LongChainHasCycle(e, c);
      ChainSlice(e, c, 0, j + 1);
      var d := c[..j + 1];
      assert d[i..] == c[i..j + 1];
      assert e.IsChain(d) && d[0] == x && 0 <= i < |d| - 1 && e.IsCycle(d[i..]);
    }
    if ReachesCycle(e, x) {
      var c: seq<string>, i: nat :| e.IsChain(c) && c[0] == x && 0 <= i < |c| - 1 && e.IsCycle(c[i..]);
      NeverReleased(e, c, i, m);
    }
  }

  /** A set is refused exactly when its own steps wait for one another in a circle. */
  lemma {:induction false} RefusesExactlyCycles(e: Entries)
    ensures Plan(e, e.names).Failure? <==> exists c :: e.IsCycle(c)
  {
    hide Filter, Plan, Remaining;
    PlanCuts(e);
    if Plan(e, e.names).Failure? {
      var x := Plan(e, e.names).error[0];
      StuckStepsReachACycle(e, x);
      var c, i: nat :| e.IsChain(c) && c[0] == x && 0 <= i < |c| - 1 && e.IsCycle(c[i..]);
    } else if c :| e.IsCycle(c) {
      CycleStays(e, c, |Plan(e, e.names).value|);
    }
  }

  /** Every step is planned exactly once. */
  lemma {:induction false} PlanKeepsEveryStep(e: Entries, remaining: seq<string>)
    ensures Plan(e, remaining).Success? ==>
            multiset(Flatten(Plan(e, remaining).value)) == multiset(remaining)
    decreases |remaining|
  {
    hide Filter;
    if remaining != [] && Ready(e, remaining) != [] {
      var ready, blocked := Ready(e, remaining), Blocked(e, remaining);
      FilterPartitions(remaining, x => e.IsReady(x, remaining), x => !e.IsReady(x, remaining));
      PlanKeepsEveryStep(e, blocked);
      if Plan(e, blocked).Success? {
        var rest := Plan(e, blocked).value;
        assert ([ready] + rest)[1..] == rest;
        assert Flatten([ready] + rest) == ready + Flatten(rest);
      }
    }
  }

  /** A step's wave number is the length of its longest dependency chain. */
  lemma {:induction false} WaveIsLongestChain(e: Entries, i: nat, x: string)
    requires Plan(e, e.names).Success?
    requires i < |Plan(e, e.names).value| && x in Plan(e, e.names).value[i]
    ensures exists c :: e.IsChain(c) && c[0] == x && |c| == i + 1
    ensures forall c :: e.IsChain(c) && c[0] == x ==> |c| <= i + 1
  {
    hide Filter, Plan, Remaining, Ready;
    PlanCuts(e);
    RemainingStep(e, i, x);
    var line := LineBefore(e, i, x);
    forall c | e.IsChain(c) && c[0] == x ensures |c| <= i + 1 {
      if |c| > i + 1 {
        ChainSlice(e, c, 0, i + 2);
        InLine(e, i + 1, c[..i + 2]);
      }
    }
  }

  /** A layering is valid when each step's dependencies all sit in earlier layers. */
  ghost predicate IsLayering(e: Entries, layers: seq<seq<string>>) {
    && (forall x :: x in e.names ==> exists i :: 0 <= i < |layers| && x in layers[i])
    && forall i, x, d :: 0 <= i < |layers| && x in layers[i] && e.Waits(x, d) ==>
        exists j :: 0 <= j < i && d in layers[j]
  }

  lemma {:induction false} ChainNeedsLayers(e: Entries, layers: seq<seq<string>>, c: seq<string>, i: nat)
    requires IsLayering(e, layers) && e.IsChain(c)
    requires i < |layers| && c[0] in layers[i]
    ensures |c| <= i + 1
    decreases |c|
  {
    if |c| > 1 {
      assert e.Waits(c[0], c[1]);
      var j :| 0 <= j < i && c[1] in layers[j];
      ChainSlice(e, c, 1, |c|);
      ChainNeedsLayers(e, layers, c[1..], j);
    }
  }

  /** No valid layering has fewer layers than the plan. */
  lemma {:induction false} FewestWaves(e: Entries, layers: seq<seq<string>>)
    requires Plan(e, e.names).Success? && IsLayering(e, layers)
    ensures |Plan(e, e.names).value| <= |layers|
  {
    hide Filter, Plan, Remaining, Ready;
    var waves := Plan(e, e.names).value;
    if |waves| > 0 {
      PlanCuts(e);
      var last := |waves| - 1;
      var x := waves[last][0];
      WaveIsLongestChain(e, last, x);
      var c :| e.IsChain(c) && c[0] == x && |c| == last + 1;
      var i :| 0 <= i < |layers| && x in layers[i];
      ChainNeedsLayers(e, layers, c, i);
    }
  }

  /** The plan is itself a valid layering. */
  lemma {:induction false} PlanIsLayering(e: Entries)
    requires Plan(e, e.names).Success?
    ensures IsLayering(e, Plan(e, e.names).value)
  {
    hide Filter, Plan, Ready;
    PlanCuts(e);
    var waves := Plan(e, e.names).value;
    forall x | x in e.names ensures exists i :: 0 <= i < |waves| && x in waves[i] {
      LeftEarlier(e, waves, |waves|, x);
    }
    forall i, x, d | 0 <= i < |waves| && x in waves[i] && e.Waits(x, d)
      ensures exists j :: 0 <= j < i && d in waves[j]
    {
      RemainingStep(e, i, x);
      LeftEarlier(e, waves, i, d);
    }
  }

  /** A step no longer waiting after i waves ran in one of them. */
  lemma {:induction false} LeftEarlier(e: Entries, waves: seq<seq<string>>, i: nat, d: string)
    requires i <= |waves| && d in e.names && d !in Remaining(e, i)
    requires CutInWaves(e, waves)
    ensures exists j :: 0 <= j < i && d in waves[j]
  {
    hide Filter, Plan, Ready, Blocked;
    if d in Remaining(e, i - 1) {
      RemainingStep(e, i - 1, d);
      assert d in waves[i - 1];
    } else {
      LeftEarlier(e, waves, i - 1, d);
    }
  }

  /** The same steps with every name the set does not carry struck from `after`. */
  function Trimmed(e: Entries): Entries {
    Entries(e.names,
            map x | x in e.steps :: WaveEntry(Some(Filter(e.After(x), d => d in e.names))))
  }

  /** A dependency on a step that is not there changes nothing at all. */
  lemma {:induction false} DanglingNamesAreInert(e: Entries)
    ensures Plan(Trimmed(e), e.names) == Plan(e, e.names)
  {
    TrimmedPlan(e, e.names);
  }

  lemma {:induction false} TrimmedPlan(e: Entries, remaining: seq<string>)
    requires forall x :: x in remaining ==> x in e.names
    ensures Plan(Trimmed(e), remaining) == Plan(e, remaining)
    decreases |remaining|
  {
    hide Filter;
    var t := Trimmed(e);
    forall x ensures t.IsReady(x, remaining) <==> e.IsReady(x, remaining) {
      assert forall d :: d in t.After(x) <==> d in e.After(x) && d in e.names;
    }
    FilterSame(remaining, x => t.IsReady(x, remaining), x => e.IsReady(x, remaining));
    FilterSame(remaining, x => !t.IsReady(x, remaining), x => !e.IsReady(x, remaining));
    if remaining != [] && Ready(e, remaining) != [] {
      FilterPartitions(remaining, x => e.IsReady(x, remaining), x => !e.IsReady(x, remaining));
      TrimmedPlan(e, Blocked(e, remaining));
    }
  }

  // ---------------------------------------------------------------- running the waves

  datatype Outcome<T> = Fulfilled(value: T) | Rejected

  datatype Status = Running | Finished | Failed

  /** How far a run has come: `wave` waves behind it, and what each started step answered. */
  datatype Run<T> = Run(wave: nat, started: seq<string>, settled: map<string, Outcome<T>>,
                        results: seq<T>, status: Status)

  /** What can happen while a run awaits: promises settle in any order, the loop resumes when it can. */
  datatype Event<T> = StartWave | Settle(name: string, outcome: Outcome<T>) | ResumeLoop | RejectRun

  function Begin<T>(): Run<T> {
    Run(0, [], map[], [], Running)
  }

  predicate AllFulfilled<T(!new)>(steps: seq<string>, settled: map<string, Outcome<T>>) {
    forall x :: x in steps ==> x in settled && settled[x].Fulfilled?
  }

  function Values<T(!new)>(steps: seq<string>, settled: map<string, Outcome<T>>): (r: seq<T>)
    requires AllFulfilled(steps, settled)
    ensures |r| == |steps|
    ensures forall i :: 0 <= i < |steps| ==> r[i] == settled[steps[i]].value
  {
    seq(|steps|, i requires 0 <= i < |steps| => settled[steps[i]].value)
  }

  /** One event, or nothing when it cannot happen in this state. */
  function Step<T(!new)>(waves: seq<seq<string>>, s: Run<T>, ev: Event<T>): Option<Run<T>> {
    var begun := s.wave < |waves| && |s.started| > |Flatten(waves[..s.wave])|;
    match ev
    case StartWave =>
      // `wave.map(run)`: every step of the wave starts in one synchronous turn.
      if s.status == Running && s.wave < |waves| && !begun
      then Some(s.(started := s.started + waves[s.wave]))
      else None
    case Settle(name, outcome) =>
      if name in s.started && name !in s.settled
      then Some(s.(settled := s.settled[name := outcome]))
      else None
    case ResumeLoop =>
      if s.status != Running then None
      else if s.wave == |waves| then Some(s.(status := Finished))
      else if begun && AllFulfilled(waves[s.wave], s.settled)
      then Some(s.(wave := s.wave + 1, results := s.results + Values(waves[s.wave], s.settled)))
      else None
    case RejectRun =>
      // `Promise.all` rejects as soon as one step of the wave it awaits has.
      if s.status == Running && begun &&
         exists x :: x in waves[s.wave] && x in s.settled && s.settled[x].Rejected?
      then Some(s.(status := Failed))
      else None
  }

  /** The state after a run of events, or nothing when one of them could not happen. */
  function RunEvents<T(!new)>(waves: seq<seq<string>>, evs: seq<Event<T>>): Option<Run<T>> {
    if evs == [] then Some(Begin())
    else
      match RunEvents(waves, evs[..|evs| - 1])
      case None => None
      case Some(s) => Step(waves, s, evs[|evs| - 1])
  }

  ghost predicate RunInv<T(!new)>(waves: seq<seq<string>>, s: Run<T>) {
    && s.wave <= |waves|
    && var past := Flatten(waves[..s.wave]);
       && (s.started == past || (s.wave < |waves| && s.started == past + waves[s.wave]))
       && AllFulfilled(past, s.settled)
       && s.results == Values(past, s.settled)
       && (forall x :: x in s.settled ==> x in s.started)
       && (s.status == Finished ==> s.wave == |waves|)
  }

  /** Every step of the current wave has been started. */
  predicate Begun<T(!new)>(waves: seq<seq<string>>, s: Run<T>) {
    s.wave < |waves| && s.started == Flatten(waves[..s.wave]) + waves[s.wave]
  }

  /**
   * What can come next, and when. While the run lasts: an unstarted wave starts; a wave with a rejected
   * step fails the run; one whose steps are all fulfilled is left behind; after the last the run ends.
   * Once it has ended, started steps may still settle, and nothing else happens.
   */
  lemma {:induction false} WhatComesNext<T(!new)>(waves: seq<seq<string>>, s: Run<T>, name: string, outcome: Outcome<T>)
    requires RunInv(waves, s) && forall w :: w in waves ==> w != []
    ensures Step(waves, s, StartWave).Some? <==> s.status == Running && s.wave < |waves| && !Begun(waves, s)
    ensures Step(waves, s, Settle(name, outcome)).Some? <==> name in s.started && name !in s.settled
    ensures Step(waves, s, ResumeLoop).Some? <==>
            s.status == Running && (s.wave == |waves| || (Begun(waves, s) && AllFulfilled(waves[s.wave], s.settled)))
    ensures Step(waves, s, RejectRun).Some? <==>
            s.status == Running && Begun(waves, s) && exists x :: x in waves[s.wave] && x in s.settled && s.settled[x].Rejected?
    ensures Step(waves, s, RejectRun).Some? ==> Step(waves, s, ResumeLoop).None?
  {
    hide Flatten, Plan, Filter;
    if s.wave < |waves| {
      assert waves[s.wave] in waves;
    }
  }

  lemma {:induction false} StepKeepsInv<T(!new)>(waves: seq<seq<string>>, s: Run<T>, ev: Event<T>)
    requires RunInv(waves, s) && Step(waves, s, ev).Some?
    requires forall w :: w in waves ==> w != []
    ensures RunInv(waves, Step(waves, s, ev).value)
  {
    hide Flatten, Plan, Filter;
    var t := Step(waves, s, ev).value;
    if ev.ResumeLoop? && s.wave < |waves| {
      assert waves[..s.wave + 1] == waves[..s.wave] + [waves[s.wave]];
      FlattenSnoc(waves[..s.wave], waves[s.wave]);
      assert t.results == Values(Flatten(waves[..t.wave]), t.settled);
    }
  }

  lemma {:induction false} EveryRunKeepsInv<T(!new)>(waves: seq<seq<string>>, evs: seq<Event<T>>)
    requires forall w :: w in waves ==> w != []
    ensures RunEvents(waves, evs).Some? ==> RunInv(waves, RunEvents(waves, evs).value)
  {
    hide Step, Plan, Filter;
    if evs != [] {
      var before := evs[..|evs| - 1];
      EveryRunKeepsInv(waves, before);
      if RunEvents(waves, evs).Some? {
        StepKeepsInv(waves, RunEvents(waves, before).value, evs[|evs| - 1]);
      }
    }
  }

  /** Whatever the interleaving, a step starts once, and only after everything it waits for answered. */
  lemma {:induction false} StartsOnlyAfterDependencies<T(!new)>(e: Entries, evs: seq<Event<T>>, x: string, d: string)
    requires e.Valid() && Plan(e, e.names).Success?
    requires RunEvents(Plan(e, e.names).value, evs).Some?
    ensures var s := RunEvents(Plan(e, e.names).value, evs).value;
            && Distinct(s.started)
            && (x in s.started && e.Waits(x, d) ==> d in s.settled && s.settled[d].Fulfilled?)
  {
    hide Plan, Filter, Flatten, RunEvents, Remaining, Values;
    var waves := Plan(e, e.names).value;
    PlanCuts(e);
    EveryRunKeepsInv(waves, evs);
    var s := RunEvents(waves, evs).value;
    PlanStarts(e, s.wave);
    if s.wave < |waves| {
      PlanStarts(e, s.wave + 1);
      assert waves[..s.wave + 1] == waves[..s.wave] + [waves[s.wave]];
      FlattenSnoc(waves[..s.wave], waves[s.wave]);
    }
    if x in s.started && e.Waits(x, d) {
      var past := Flatten(waves[..s.wave]);
      if x in past {
        var i :| 0 <= i < |waves[..s.wave]| && x in waves[..s.wave][i];
        DependencyRanEarlier(e, i, x, d, s.wave);
      } else {
        DependencyRanEarlier(e, s.wave, x, d, s.wave);
      }
    }
  }

  lemma {:induction false} DependencyRanEarlier(e: Entries, i: nat, x: string, d: string, w: nat)
    requires Plan(e, e.names).Success?
    requires i < |Plan(e, e.names).value| && x in Plan(e, e.names).value[i] && e.Waits(x, d)
    requires i <= w <= |Plan(e, e.names).value|
    ensures d in Flatten(Plan(e, e.names).value[..w])
  {
    hide Plan, Filter, Flatten, Remaining, Ready;
    var waves := Plan(e, e.names).value;
    PlanCuts(e);
    RemainingStep(e, i, x);
    LeftEarlier(e, waves, i, d);
    var j :| 0 <= j < i && d in waves[j];
    assert waves[..w][j] == waves[j];
  }

  /** The first w waves list each step at most once. */
  lemma {:induction false} PlanStarts(e: Entries, w: nat)
    requires e.Valid() && Plan(e, e.names).Success? && w <= |Plan(e, e.names).value|
    ensures Distinct(Flatten(Plan(e, e.names).value[..w]))
  {
    hide Plan, Filter, Flatten;
    var waves := Plan(e, e.names).value;
    PlanKeepsEveryStep(e, e.names);
    FlattenConcat(waves[..w], waves[w..]);
    assert waves[..w] + waves[w..] == waves;
    var a, b := Flatten(waves[..w]), Flatten(waves[w..]);
    DistinctCounts(e.names);
    forall x ensures multiset(a)[x] <= 1 {
      assert multiset(a + b)[x] == multiset(a)[x] + multiset(b)[x];
      assert multiset(e.names)[x] <= 1;
    }
    CountsAreDistinct(a);
  }

  lemma {:induction false} FlattenConcat<T(!new)>(a: seq<seq<T>>, b: seq<seq<T>>)
    ensures Flatten(a + b) == Flatten(a) + Flatten(b)
  {
    if a == [] {
      assert a + b == b;
    } else {
      assert (a + b)[1..] == a[1..] + b;
      FlattenConcat(a[1..], b);
    }
  }

  /** A finished run started every step, and returns every step's answer in wave order. */
  lemma {:induction false} FinishedRunReturnsEverything<T(!new)>(e: Entries, evs: seq<Event<T>>)
    requires e.Valid() && Plan(e, e.names).Success?
    requires RunEvents(Plan(e, e.names).value, evs).Some?
    requires RunEvents(Plan(e, e.names).value, evs).value.status == Finished
    ensures var s := RunEvents(Plan(e, e.names).value, evs).value;
            var order := Flatten(Plan(e, e.names).value);
            && multiset(s.started) == multiset(e.names)
            && s.started == order
            && AllFulfilled(order, s.settled)
            && s.results == Values(order, s.settled)
  {
    hide Plan, Filter, Flatten, RunEvents, Remaining, Values;
    var waves := Plan(e, e.names).value;
    PlanCuts(e);
    EveryRunKeepsInv(waves, evs);
    PlanKeepsEveryStep(e, e.names);
    assert waves[..|waves|] == waves;
  }
}
