/** The cluster primary: forks workers, respawns crashed ones, and shuts them down together. */
module Cluster {
  import opened Basics

  // ---------------------------------------------------------------- the crash policy

  datatype CrashPolicy = CrashPolicy(windowMs: int, backoffBaseMs: int, backoffMaxMs: int, maxCrashes: int)

  datatype Verdict = Respawn(delayMs: int, recentCrashes: seq<int>) | GiveUp(recentCrashes: seq<int>)

  function Max(a: int, b: int): int {
    if a >= b then a else b
  }

  function Min(a: int, b: int): int {
    if a <= b then a else b
  }

  /** How many workers to fork: at least one. */
  function WorkerTarget(requested: int, availableCpus: int): (r: int)
    ensures r >= 1
    ensures requested > 0 ==> r == requested
    ensures requested <= 0 && availableCpus > 0 ==> r == availableCpus
  {
    Max(1, if requested > 0 then requested else availableCpus)
  }

  function Pow2(n: nat): (r: int)
    ensures r >= 1
  {
    if n == 0 then 1 else 2 * Pow2(n - 1)
  }

  /** The crashes still inside the window at `now`. */
  function Recent(history: seq<int>, now: int, windowMs: int): seq<int> {
    Filter(history, (t: int) => now - t <= windowMs)
  }

  /** Respawn with exponential backoff, or give up on a crash loop. */
  function CrashVerdict(history: seq<int>, now: int, policy: CrashPolicy): Verdict {
    var recent := Recent(history, now, policy.windowMs) + [now];
    if |recent| > policy.maxCrashes then GiveUp(recent)
    else Respawn(Min(policy.backoffBaseMs * Pow2(|recent| - 1), policy.backoffMaxMs), recent)
  }

  // ---------------------------------------------------------------- the primary's state and events

  /** What the primary decides about one crash, from the history it kept; any rule at all. */
  type Judge = (seq<int>, int) -> Verdict

  /**
   * `running` are the forked processes that have not exited, `connected` the channels still open;
   * Node lists a worker until both are gone. `crashHistory` is what the primary keeps, `crashes` every
   * crash it ever judged; `retired` counts exits that were not respawned, `forks` every fork, and
   * `broadcasts` every SIGTERM round with the workers it reached.
   */
  datatype State = State(target: nat, shuttingDown: bool, crashHistory: seq<int>, crashes: seq<int>,
                         timers: set<nat>, running: set<nat>, connected: set<nat>, exitCode: Option<int>,
                         retired: nat, forks: nat, nextTimer: nat, broadcasts: seq<set<nat>>)

  datatype Event =
    | Exit(worker: nat, code: Option<int>, signal: Option<string>, afterDisconnect: bool, now: int)
    | Disconnect(worker: nat)
    | TimerFires(timer: nat)
    | Signal
    | ForceFires

  function Listed(s: State): set<nat> {
    s.running + s.connected
  }

  function Fork(s: State): State {
    if s.shuttingDown then s
    else s.(running := s.running + {s.forks}, connected := s.connected + {s.forks}, forks := s.forks + 1)
  }

  function ForkMany(s: State, n: nat): State {
    if n == 0 then s else Fork(ForkMany(s, n - 1))
  }

  function Supervised(workers: nat): State {
    ForkMany(State(workers, false, [], [], {}, {}, {}, None, 0, 0, 0, []), workers)
  }

  function ScheduleRespawn(s: State): State {
    if s.shuttingDown then s else s.(timers := s.timers + {s.nextTimer}, nextTimer := s.nextTimer + 1)
  }

  predicate ShouldRespawn(s: State, e: Event)
    requires e.Exit?
  {
    && !s.shuttingDown
    && !e.afterDisconnect
    && e.code != Some(0)
    && e.signal != Some("SIGTERM") && e.signal != Some("SIGINT")
  }

  function Shutdown(s: State): State {
    if s.shuttingDown then s
    else s.(shuttingDown := true, timers := {}, broadcasts := s.broadcasts + [Listed(s)])
  }

  function OnExit(judge: Judge, s: State, e: Event): State
    requires e.Exit?
  {
    var t := s.(running := s.running - {e.worker});
    if t.shuttingDown then
      if Listed(t) == {} && t.exitCode.None? then t.(exitCode := Some(0)) else t
    else if !ShouldRespawn(t, e) then t.(retired := t.retired + 1)
    else
      var verdict := judge(t.crashHistory, e.now);
      var u := t.(crashHistory := verdict.recentCrashes, crashes := t.crashes + [e.now]);
      if verdict.GiveUp? then Shutdown(u.(exitCode := Some(1))) else ScheduleRespawn(u)
  }

  /** One event, or nothing when it cannot happen: only a live worker exits, only a pending timer fires. */
  function Step(judge: Judge, s: State, e: Event): Option<State> {
    match e
    case Exit(worker, _, _, _, _) => if worker in s.running then Some(OnExit(judge, s, e)) else None
    case Disconnect(worker) => if worker in s.connected then Some(s.(connected := s.connected - {worker})) else None
    case TimerFires(timer) => if timer in s.timers then Some(Fork(s.(timers := s.timers - {timer}))) else None
    case Signal => Some(Shutdown(s))
    case ForceFires => if s.shuttingDown then Some(s.(exitCode := Some(1))) else None
  }

  function RunFrom(judge: Judge, s: State, events: seq<Event>): Option<State> {
    if events == [] then Some(s)
    else
      match RunFrom(judge, s, events[..|events| - 1])
      case None => None
      case Some(t) => Step(judge, t, events[|events| - 1])
  }

  // ---------------------------------------------------------------- the primary itself

  /** The supervising process: its variables, and the handlers that change them. */
  class Primary {
    const target: nat
    const judge: Judge
    var isShuttingDown: bool
    var crashHistory: seq<int>
    var respawnTimers: set<nat>
    var running: set<nat>
    var connected: set<nat>
    var exitCode: Option<int>
    ghost var crashes: seq<int>
    ghost var retired: nat
    var forks: nat
    var nextTimer: nat
    ghost var broadcasts: seq<set<nat>>

    ghost function View(): State
      reads this
    {
      State(target, isShuttingDown, crashHistory, crashes, respawnTimers, running, connected, exitCode,
            retired, forks, nextTimer, broadcasts)
    }

    constructor Supervise(workers: nat, judge: Judge)
      ensures View() == Supervised(workers) && this.judge == judge
    {
      this.target, this.judge := workers, judge;
      isShuttingDown, crashHistory, crashes, respawnTimers := false, [], [], {};
      running, connected, exitCode, retired := {}, {}, None, 0;
      forks, nextTimer, broadcasts := 0, 0, [];
      new;
      ghost var start := View();
      for i := 0 to workers
        invariant View() == ForkMany(start, i)
      {
        ForkWorker();
      }
    }

    method ForkWorker()
      modifies this
      ensures View() == Fork(old(View()))
    {
      if isShuttingDown {
        return;
      }
      running, connected := running + {forks}, connected + {forks};
      forks := forks + 1;
    }

    method Respawn()
      modifies this
      ensures View() == ScheduleRespawn(old(View()))
    {
      if isShuttingDown {
        return;
      }
      respawnTimers, nextTimer := respawnTimers + {nextTimer}, nextTimer + 1;
    }

    method StartPrimaryShutdown()
      modifies this
      ensures View() == Shutdown(old(View()))
    {
      if isShuttingDown {
        return;
      }
      isShuttingDown := true;
      respawnTimers := {};
      broadcasts := broadcasts + [running + connected];
    }

    method HandleExit(e: Event)
      requires e.Exit? && e.worker in running
      modifies this
      ensures Some(View()) == Step(judge, old(View()), e)
    {
      running := running - {e.worker};
      if isShuttingDown {
        if running + connected == {} && exitCode.None? {
          exitCode := Some(0);
        }
        return;
      }
      if e.afterDisconnect || e.code == Some(0) || e.signal == Some("SIGTERM") || e.signal == Some("SIGINT") {
        retired := retired + 1;
        return;
      }
      var verdict := judge(crashHistory, e.now);
      crashHistory, crashes := verdict.recentCrashes, crashes + [e.now];
      if verdict.GiveUp? {
        exitCode := Some(1);
        StartPrimaryShutdown();
        return;
      }
      Respawn();
    }

    method HandleTimer(timer: nat)
      requires timer in respawnTimers
      modifies this
      ensures Some(View()) == Step(judge, old(View()), TimerFires(timer))
    {
      respawnTimers := respawnTimers - {timer};
      ForkWorker();
    }

    method HandleForceTimer()
      requires isShuttingDown
      modifies this
      ensures Some(View()) == Step(judge, old(View()), ForceFires)
    {
      exitCode := Some(1);
    }
  }

  // ---------------------------------------------------------------- invariants over every run

  ghost predicate Inv(s: State) {
    && (forall w :: w in s.running + s.connected ==> w < s.forks)
    && (forall t :: t in s.timers ==> t < s.nextTimer)
    && (!s.shuttingDown ==> |s.running| + |s.timers| + s.retired == s.target)
    && (s.shuttingDown ==> s.timers == {})
    && |s.broadcasts| == (if s.shuttingDown then 1 else 0)
    && (s.exitCode == None || s.exitCode == Some(0) || s.exitCode == Some(1))
    && (s.exitCode.Some? ==> s.shuttingDown)
    && (s.exitCode == Some(0) ==> Listed(s) == {})
  }

  lemma {:induction false} ForkKeeps(s: State)
    requires forall w :: w in s.running + s.connected ==> w < s.forks
    ensures var t := Fork(s);
            && (forall w :: w in t.running + t.connected ==> w < t.forks)
            && (!s.shuttingDown ==> |t.running| == |s.running| + 1)
  {
    assert s.forks !in s.running + s.connected;
  }

  lemma {:induction false} StartIsSound(workers: nat, n: nat)
    requires n <= workers
    ensures var s := ForkMany(State(workers, false, [], [], {}, {}, {}, None, 0, 0, 0, []), n);
            && (forall w :: w in s.running + s.connected ==> w < s.forks)
            && |s.running| == n
            && s == State(workers, false, [], [], {}, s.running, s.connected, None, 0, n, 0, [])
  {
    if n > 0 {
      StartIsSound(workers, n - 1);
      ForkKeeps(ForkMany(State(workers, false, [], [], {}, {}, {}, None, 0, 0, 0, []), n - 1));
    }
  }

  lemma {:induction false} StepKeepsInv(judge: Judge, s: State, e: Event)
    requires Inv(s) && Step(judge, s, e).Some?
    ensures Inv(Step(judge, s, e).value)
  {
    hide OnExit;
    if e.TimerFires? {
      TimerKeepsInv(s, e.timer);
    } else if e.Disconnect? {
      assert e.worker in Listed(s);
    } else if e.Exit? {
      ExitKeepsInv(judge, s, e);
    }
  }

  lemma {:induction false} TimerKeepsInv(s: State, timer: nat)
    requires Inv(s) && timer in s.timers
    ensures Inv(Fork(s.(timers := s.timers - {timer})))
  {
    var t := s.(timers := s.timers - {timer});
    assert |t.timers| == |s.timers| - 1 && !s.shuttingDown;
    ForkKeeps(t);
    assert Fork(t).timers == t.timers;
  }

  lemma {:induction false} ExitKeepsInv(judge: Judge, s: State, e: Event)
    requires Inv(s) && e.Exit? && e.worker in s.running
    ensures Inv(OnExit(judge, s, e))
  {
    var t := s.(running := s.running - {e.worker});
    assert |t.running| == |s.running| - 1;
    assert e.worker in Listed(s) && Listed(t) <= Listed(s);
    var u := t.(crashHistory := judge(t.crashHistory, e.now).recentCrashes, crashes := t.crashes + [e.now]);
    assert u.nextTimer !in u.timers;
    assert |ScheduleRespawn(u).timers| == if u.shuttingDown then |u.timers| else |u.timers| + 1;
  }

  /** What can happen when, and what a respawn timer does: it forks one worker in the place it was set for. */
  lemma {:induction false} EventsHappenExactly(judge: Judge, s: State, e: Event)
    requires Inv(s)
    ensures Step(judge, s, e).Some? <==>
            match e
            case Exit(worker, _, _, _, _) => worker in s.running
            case Disconnect(worker) => worker in s.connected
            case TimerFires(timer) => timer in s.timers
            case Signal => true
            case ForceFires => s.shuttingDown
    ensures e.TimerFires? && e.timer in s.timers ==>
              var t := Step(judge, s, e).value;
              && t.timers == s.timers - {e.timer} && t.forks == s.forks + 1
              && s.running < t.running && |t.running| == |s.running| + 1 && t.retired == s.retired
    ensures e.Disconnect? && e.worker in s.connected ==>
              Step(judge, s, e).value == s.(connected := s.connected - {e.worker})
  {
    assert s.forks !in s.running + s.connected;
    assert s.forks !in s.running;
    assert |s.running + {s.forks}| == |s.running| + 1;
    assert s.forks in s.running + {s.forks};
  }

  /** An exit nobody stopped: not a clean one, not by a stop signal, not after a disconnect. */
  ghost predicate IsCrash(e: Event) {
    && e.Exit?
    && (e.code.None? || e.code.value != 0)
    && (e.signal.None? || (e.signal.value != "SIGTERM" && e.signal.value != "SIGINT"))
    && !e.afterDisconnect
  }

  /**
   * Which exits are respawned, before shutdown. A crash is judged and recorded: it adds one respawn
   * timer, or the primary gives up with exit code 1. A worker that was disconnected, ended with code 0
   * or was stopped by SIGTERM or SIGINT is retired, and nothing is scheduled.
   */
  lemma {:induction false} EveryExitIsAnswered(judge: Judge, s: State, e: Event, t: State)
    requires Inv(s) && !s.shuttingDown && e.Exit? && Step(judge, s, e) == Some(t)
    ensures e.worker in s.running && t.running == s.running - {e.worker} && t.forks == s.forks
    ensures IsCrash(e) ==>
              var verdict := judge(s.crashHistory, e.now);
              && t.crashes == s.crashes + [e.now] && t.crashHistory == verdict.recentCrashes && t.retired == s.retired
              && (verdict.Respawn? ==>
                    && s.timers < t.timers && |t.timers| == |s.timers| + 1
                    && !t.shuttingDown && t.exitCode == s.exitCode)
              && (verdict.GiveUp? ==> t.shuttingDown && t.exitCode == Some(1) && t.timers == {})
    ensures e.afterDisconnect || e.code == Some(0) || e.signal == Some("SIGTERM") || e.signal == Some("SIGINT") ==>
              && t.retired == s.retired + 1 && t.timers == s.timers
              && t.crashes == s.crashes && t.crashHistory == s.crashHistory
              && !t.shuttingDown && t.exitCode == s.exitCode
  {
    assert s.nextTimer !in s.timers;
    assert |s.timers + {s.nextTimer}| == |s.timers| + 1;
    assert s.nextTimer in s.timers + {s.nextTimer};
  }

  /** Whatever happens, and whatever rule judges the crashes, the primary's accounts stay in order. */
  lemma {:induction false} EveryRunIsSound(judge: Judge, workers: nat, events: seq<Event>)
    ensures RunFrom(judge, Supervised(workers), events).Some? ==>
            Inv(RunFrom(judge, Supervised(workers), events).value)
  {
    hide Step, ForkMany, Inv;
    if events == [] {
      SupervisedIsSound(workers);
    } else {
      var before := events[..|events| - 1];
      EveryRunIsSound(judge, workers, before);
      if RunFrom(judge, Supervised(workers), events).Some? {
        StepKeepsInv(judge, RunFrom(judge, Supervised(workers), before).value, events[|events| - 1]);
      }
    }
  }

  lemma {:induction false} SupervisedIsSound(workers: nat)
    ensures Inv(Supervised(workers)) && Supervised(workers).target == workers
  {
    hide ForkMany;
    StartIsSound(workers, workers);
  }

  /** What one event may do once shutdown has begun, and to a recorded failure at any time. */
  lemma {:induction false} StepAfterShutdown(judge: Judge, s: State, e: Event)
    requires Inv(s) && Step(judge, s, e).Some?
    ensures var t := Step(judge, s, e).value;
            && (s.shuttingDown ==> t.shuttingDown && t.forks == s.forks && t.running <= s.running
                                   && t.timers == {} && t.broadcasts == s.broadcasts)
            && (s.exitCode == Some(1) ==> t.exitCode == Some(1))
            && (t.exitCode == Some(0) && s.exitCode != Some(0) ==> s.exitCode.None? && Listed(t) == {})
  {
  }

  /**
   * The exit that leaves no worker behind ends the shutdown: with code 0, unless a failure was recorded.
   * Any other exit during shutdown only takes its worker off the list.
   */
  lemma {:induction false} LastExitSettlesTheCode(judge: Judge, s: State, e: Event, t: State)
    requires s.shuttingDown && e.Exit? && Step(judge, s, e) == Some(t)
    ensures t == s.(running := s.running - {e.worker}, exitCode := t.exitCode)
    ensures t.exitCode == if t.running == {} && t.connected == {} && s.exitCode.None? then Some(0) else s.exitCode
  {
  }

  /** After shutdown starts nothing is forked and no one signalled again; a recorded failure is never replaced. */
  lemma {:induction false} ShutdownIsFinal(judge: Judge, s: State, events: seq<Event>)
    requires Inv(s) && RunFrom(judge, s, events).Some?
    ensures var t := RunFrom(judge, s, events).value;
            && Inv(t)
            && (s.shuttingDown ==> t.shuttingDown && t.forks == s.forks && t.running <= s.running
                                   && t.timers == {} && t.broadcasts == s.broadcasts)
            && (s.exitCode == Some(1) ==> t.exitCode == Some(1))
  {
    hide Step, Inv;
    if events != [] {
      var before := events[..|events| - 1];
      ShutdownIsFinal(judge, s, before);
      var t := RunFrom(judge, s, before).value;
      StepAfterShutdown(judge, t, events[|events| - 1]);
      StepKeepsInv(judge, t, events[|events| - 1]);
    }
    if s.shuttingDown {
      ShutdownHasNoTimers(s);
    }
  }

  lemma {:induction false} ShutdownHasNoTimers(s: State)
    requires Inv(s) && s.shuttingDown
    ensures s.timers == {}
  {
  }

  /** Before shutdown every worker asked for is running, about to be forked again, or gone for good. */
  lemma {:induction false} NoWorkerIsLost(judge: Judge, workers: nat, events: seq<Event>)
    requires RunFrom(judge, Supervised(workers), events).Some?
    ensures var s := RunFrom(judge, Supervised(workers), events).value;
            && (!s.shuttingDown ==> |s.running| + |s.timers| + s.retired == workers)
            && (!s.shuttingDown && s.timers == {} && s.retired == 0 ==> |s.running| == workers)
            && |s.broadcasts| <= 1
  {
    hide Step, RunFrom, Supervised;
    EveryRunIsSound(judge, workers, events);
    TargetStays(judge, workers, events);
  }

  lemma {:induction false} TargetStays(judge: Judge, workers: nat, events: seq<Event>)
    requires RunFrom(judge, Supervised(workers), events).Some?
    ensures RunFrom(judge, Supervised(workers), events).value.target == workers
  {
    hide Supervised, Step, Inv;
    if events == [] {
      SupervisedIsSound(workers);
    } else {
      var before := events[..|events| - 1];
      TargetStays(judge, workers, before);
      StepKeepsTarget(judge, RunFrom(judge, Supervised(workers), before).value, events[|events| - 1]);
    }
  }

  lemma {:induction false} StepKeepsTarget(judge: Judge, s: State, e: Event)
    requires Step(judge, s, e).Some?
    ensures Step(judge, s, e).value.target == s.target
  {
  }

  // ---------------------------------------------------------------- the crash policy over a whole run

  function PolicyJudge(policy: CrashPolicy): Judge {
    (history, now) => CrashVerdict(history, now, policy)
  }

  /** The clock did not step back between crashes. */
  ghost predicate InOrder(times: seq<int>) {
    forall i, j :: 0 <= i <= j < |times| ==> times[i] <= times[j]
  }

  /** The first crash still inside the window that ends at `now`. */
  ghost predicate WindowStart(times: seq<int>, now: int, windowMs: int, k: nat) {
    && k <= |times|
    && (forall i :: 0 <= i < k ==> now - times[i] > windowMs)
    && (forall i :: k <= i < |times| ==> now - times[i] <= windowMs)
  }

  /** What is still recent is a suffix of the crashes. */
  lemma {:induction false} RecentIsSuffix(times: seq<int>, now: int, windowMs: int) returns (k: nat)
    requires InOrder(times)
    ensures WindowStart(times, now, windowMs, k)
    ensures Recent(times, now, windowMs) == times[k..]
  {
    if times == [] {
      k := 0;
    } else if now - times[0] <= windowMs {
      k := 0;
      FilterAll(times, (t: int) => now - t <= windowMs);
    } else {
      var rest := RecentIsSuffix(times[1..], now, windowMs);
      k := rest + 1;
    }
  }

  /** What the primary keeps of its crashes: at each one, those that are then still in the window. */
  function Kept(crashes: seq<int>, windowMs: int): seq<int> {
    if crashes == [] then []
    else
      Recent(Kept(crashes[..|crashes| - 1], windowMs), crashes[|crashes| - 1], windowMs) + [crashes[|crashes| - 1]]
  }

  /** Every crash that counts (as `counts` says) was still in the window at each crash after it. */
  ghost predicate Unforgotten(crashes: seq<int>, windowMs: int, counts: int -> bool) {
    forall k, j :: 0 <= k < j < |crashes| && counts(crashes[k]) ==> crashes[j] - crashes[k] <= windowMs
  }

  /** A stricter filter keeps no more, and as many only if it keeps the same. */
  lemma {:induction false} StricterKeepsFewer(s: seq<int>, strict: int -> bool, lax: int -> bool)
    requires forall x :: x in s && strict(x) ==> lax(x)
    ensures |Filter(s, strict)| <= |Filter(s, lax)|
    ensures |Filter(s, strict)| == |Filter(s, lax)| <==> forall x :: x in s && lax(x) ==> strict(x)
    ensures |Filter(s, strict)| == |Filter(s, lax)| ==> Filter(s, strict) == Filter(s, lax)
  {
    if s != [] {
      var head, rest := s[0], s[1..];
      assert s == [head] + rest;
      StricterKeepsFewer(rest, strict, lax);
      assert (forall x :: x in s && lax(x) ==> strict(x)) <==>
             (lax(head) ==> strict(head)) && forall x :: x in rest && lax(x) ==> strict(x);
    }
  }

  /** Of the crashes that count, the kept ones are all exactly when none was forgotten. */
  lemma {:induction false} KeptOfThoseThatCount(crashes: seq<int>, windowMs: int, counts: int -> bool)
    ensures |Filter(Kept(crashes, windowMs), counts)| <= |Filter(crashes, counts)|
    ensures |Filter(Kept(crashes, windowMs), counts)| == |Filter(crashes, counts)| <==> Unforgotten(crashes, windowMs, counts)
    ensures Unforgotten(crashes, windowMs, counts) ==> Filter(Kept(crashes, windowMs), counts) == Filter(crashes, counts)
  {
    hide Unforgotten;
    if crashes == [] {
      NothingForgotten(windowMs, counts);
    } else {
      var before, last := crashes[..|crashes| - 1], crashes[|crashes| - 1];
      var both := (t: int) => counts(t) && last - t <= windowMs;
      var kept := Kept(before, windowMs);
      KeptOfThoseThatCount(before, windowMs, both);
      StricterKeepsFewer(before, both, counts);
      FilterTwice(kept, (t: int) => last - t <= windowMs, counts, both);
      FilterConcat(Recent(kept, last, windowMs), [last], counts);
      FilterConcat(before, [last], counts);
      assert crashes == before + [last];
      UnforgottenSnoc(before, last, windowMs, counts, both);
    }
  }

  lemma {:induction false} NothingForgotten(windowMs: int, counts: int -> bool)
    ensures Unforgotten([], windowMs, counts) && Kept([], windowMs) == []
  {
  }

  lemma {:induction false} UnforgottenSnoc(before: seq<int>, last: int, windowMs: int, counts: int -> bool, both: int -> bool)
    requires forall t :: both(t) <==> counts(t) && last - t <= windowMs
    ensures Unforgotten(before + [last], windowMs, counts) <==>
            Unforgotten(before, windowMs, both) && forall t :: t in before && counts(t) ==> both(t)
  {
    var all := before + [last];
    assert all[|before|] == last;
    assert forall k :: 0 <= k < |before| ==> all[k] == before[k] && before[k] in before;
    if Unforgotten(all, windowMs, counts) {
      forall t | t in before && counts(t) ensures both(t) {
        var k :| 0 <= k < |before| && before[k] == t;
        assert counts(all[k]) && all[|before|] - all[k] <= windowMs;
      }
    }
  }

  /**
   * The verdict on the kept crashes is the verdict on all of them exactly when each crash that is now
   * inside the window was inside it at every crash in between: nothing that counts was forgotten.
   */
  lemma {:induction false} VerdictUnchangedExactly(crashes: seq<int>, now: int, policy: CrashPolicy)
    ensures CrashVerdict(Kept(crashes, policy.windowMs), now, policy) == CrashVerdict(crashes, now, policy) <==>
            forall k, j :: 0 <= k < j < |crashes| && now - crashes[k] <= policy.windowMs ==>
              crashes[j] - crashes[k] <= policy.windowMs
  {
    hide Kept, Filter;
    var w := policy.windowMs;
    var counts := (t: int) => now - t <= w;
    KeptOfThoseThatCount(crashes, w, counts);
    FilterSame(crashes, counts, (t: int) => now - t <= policy.windowMs);
    FilterSame(Kept(crashes, w), counts, (t: int) => now - t <= policy.windowMs);
    var some, all := Recent(Kept(crashes, w), now, w), Recent(crashes, now, w);
    if some + [now] == all + [now] {
      assert |some| == |all|;
    }
    assert Unforgotten(crashes, w, counts) <==>
      forall k, j :: 0 <= k < j < |crashes| && now - crashes[k] <= policy.windowMs ==>
        crashes[j] - crashes[k] <= policy.windowMs;
  }

  /** As long as the clock does not step back, forgetting is safe. */
  lemma {:induction false} KeptIsEnough(crashes: seq<int>, now: int, policy: CrashPolicy)
    requires InOrder(crashes + [now])
    ensures CrashVerdict(Kept(crashes, policy.windowMs), now, policy) == CrashVerdict(crashes, now, policy)
  {
    hide CrashVerdict, Kept;
    VerdictUnchangedExactly(crashes, now, policy);
    var all := crashes + [now];
    assert all[|crashes|] == now;
    forall k, j | 0 <= k < j < |crashes| && now - crashes[k] <= policy.windowMs
      ensures crashes[j] - crashes[k] <= policy.windowMs
    {
      assert all[j] == crashes[j] && all[j] <= all[|crashes|];
    }
  }

  lemma {:induction false} KeptWithin(crashes: seq<int>, windowMs: int)
    ensures forall t :: t in Kept(crashes, windowMs) ==> t in crashes
  {
    if crashes != [] {
      assert crashes == crashes[..|crashes| - 1] + [crashes[|crashes| - 1]];
      KeptWithin(crashes[..|crashes| - 1], windowMs);
    }
  }

  /** All crashes at one moment but the last, which comes when they have just left the window. */
  function Burst(policy: CrashPolicy): seq<int>
    requires policy.maxCrashes >= 2
  {
    seq(policy.maxCrashes - 1, _ => 0) + [policy.windowMs + 1]
  }

  /**
   * Where forgetting is not safe: if the clock then steps back to the burst, the crashes would exceed
   * the limit, but the primary has forgotten all but one and respawns.
   */
  lemma {:induction false} SteppedBackClockForgets(policy: CrashPolicy)
    requires policy.windowMs >= 0 && policy.maxCrashes >= 2
    ensures CrashVerdict(Kept(Burst(policy), policy.windowMs), 0, policy).Respawn?
    ensures CrashVerdict(Burst(policy), 0, policy).GiveUp?
  {
    hide Filter;
    var w, crashes := policy.windowMs, Burst(policy);
    var burst := seq(policy.maxCrashes - 1, _ => 0);
    assert crashes[..|crashes| - 1] == burst;
    KeptWithin(burst, w);
    FilterNone(Kept(burst, w), (t: int) => w + 1 - t <= w);
    assert Kept(crashes, w) == [w + 1];
    FilterAll([w + 1], (t: int) => 0 - t <= policy.windowMs);
    FilterAll(crashes, (t: int) => 0 - t <= policy.windowMs);
  }

  /** The crash `maxCrashes` places before this one falls inside the window, or no crash is tolerated. */
  ghost predicate CrashLoop(crashes: seq<int>, now: int, policy: CrashPolicy) {
    || policy.maxCrashes <= 0
    || (|crashes| >= policy.maxCrashes && now - crashes[|crashes| - policy.maxCrashes] <= policy.windowMs)
  }

  lemma {:induction false} GivesUpExactlyOnCrashLoop(crashes: seq<int>, now: int, policy: CrashPolicy)
    requires InOrder(crashes + [now])
    ensures CrashVerdict(Kept(crashes, policy.windowMs), now, policy).GiveUp? <==> CrashLoop(crashes, now, policy)
  {
    KeptIsEnough(crashes, now, policy);
    assert InOrder(crashes) by {
      assert crashes == (crashes + [now])[..|crashes|];
    }
    var k := RecentIsSuffix(crashes, now, policy.windowMs);
  }

  /** The wait before a respawn: the base for a lone crash, never more than the ceiling, and the ceiling or a doubling. */
  lemma {:induction false} BackoffStartsAtTheBase(history: seq<int>, now: int, policy: CrashPolicy)
    requires CrashVerdict(history, now, policy).Respawn?
    ensures var verdict := CrashVerdict(history, now, policy);
            && verdict.delayMs <= policy.backoffMaxMs
            && (|verdict.recentCrashes| == 1 ==>
                  verdict.delayMs == if policy.backoffBaseMs <= policy.backoffMaxMs then policy.backoffBaseMs else policy.backoffMaxMs)
            && verdict.recentCrashes[|verdict.recentCrashes| - 1] == now
  {
    assert Pow2(0) == 1;
  }

  /** Each crash inside the window doubles the wait, up to the ceiling. */
  lemma {:induction false} BackoffDoubles(a: seq<int>, b: seq<int>, now: int, later: int, policy: CrashPolicy)
    requires policy.backoffBaseMs >= 0 && policy.backoffMaxMs >= 0
    requires CrashVerdict(a, now, policy).Respawn? && CrashVerdict(b, later, policy).Respawn?
    requires |CrashVerdict(b, later, policy).recentCrashes| == |CrashVerdict(a, now, policy).recentCrashes| + 1
    ensures CrashVerdict(b, later, policy).delayMs == Min(2 * CrashVerdict(a, now, policy).delayMs, policy.backoffMaxMs)
    ensures 0 <= CrashVerdict(a, now, policy).delayMs <= CrashVerdict(b, later, policy).delayMs
  {
    var n := |CrashVerdict(a, now, policy).recentCrashes| - 1;
    assert Pow2(n + 1) == 2 * Pow2(n);
    var wait := policy.backoffBaseMs * Pow2(n);
    assert policy.backoffBaseMs * Pow2(n + 1) == 2 * wait;
  }

  /** While the primary lives, no window ever held more crashes than the policy tolerates. */
  ghost predicate Tolerated(crashes: seq<int>, policy: CrashPolicy) {
    forall i, j :: 0 <= i <= j < |crashes| && crashes[j] - crashes[i] <= policy.windowMs ==>
      j - i + 1 <= policy.maxCrashes
  }

  ghost predicate PolicyInv(s: State, policy: CrashPolicy) {
    && s.crashHistory == Kept(s.crashes, policy.windowMs)
    && (InOrder(s.crashes) && !s.shuttingDown ==> Tolerated(s.crashes, policy))
  }

  lemma {:induction false} ToleratedGrows(crashes: seq<int>, now: int, policy: CrashPolicy)
    requires InOrder(crashes + [now]) && Tolerated(crashes, policy) && !CrashLoop(crashes, now, policy)
    ensures Tolerated(crashes + [now], policy)
  {
    var all := crashes + [now];
    var k := |crashes| - policy.maxCrashes;
    assert forall i :: 0 <= i <= k ==> all[i] <= all[k] == crashes[k];
    forall i, j | 0 <= i <= j < |all| && all[j] - all[i] <= policy.windowMs
      ensures j - i + 1 <= policy.maxCrashes
    {
      if j < |crashes| {
        assert crashes[j] == all[j] && crashes[i] == all[i];
      }
    }
  }

  /** What one exit does to the record of crashes. */
  lemma {:induction false} ExitRecords(judge: Judge, s: State, e: Event)
    requires e.Exit?
    ensures var t, verdict := OnExit(judge, s, e), judge(s.crashHistory, e.now);
            || (t.crashes == s.crashes && t.crashHistory == s.crashHistory && t.shuttingDown == s.shuttingDown)
            || (&& t.crashes == s.crashes + [e.now] && t.crashHistory == verdict.recentCrashes
                && (t.shuttingDown <==> s.shuttingDown || verdict.GiveUp?))
  {
  }

  lemma {:induction false} KeptGrows(crashes: seq<int>, now: int, policy: CrashPolicy)
    ensures Kept(crashes + [now], policy.windowMs) ==
            CrashVerdict(Kept(crashes, policy.windowMs), now, policy).recentCrashes
  {
    hide Recent;
    assert (crashes + [now])[..|crashes|] == crashes;
  }

  lemma {:induction false} CrashKeepsPolicy(s: State, e: Event, policy: CrashPolicy)
    requires e.Exit? && PolicyInv(s, policy)
    ensures PolicyInv(OnExit(PolicyJudge(policy), s, e), policy)
  {
    hide InOrder, Kept, CrashVerdict, OnExit, Tolerated, CrashLoop;
    ExitRecords(PolicyJudge(policy), s, e);
    KeptGrows(s.crashes, e.now, policy);
    if InOrder(s.crashes + [e.now]) {
      PrefixInOrder(s.crashes, e.now);
      GivesUpExactlyOnCrashLoop(s.crashes, e.now, policy);
      if Tolerated(s.crashes, policy) && !CrashLoop(s.crashes, e.now, policy) {
        ToleratedGrows(s.crashes, e.now, policy);
      }
    }
  }

  lemma {:induction false} PrefixInOrder(times: seq<int>, now: int)
    requires InOrder(times + [now])
    ensures InOrder(times)
  {
    assert times == (times + [now])[..|times|];
  }

  lemma {:induction false} StepKeepsPolicy(s: State, e: Event, policy: CrashPolicy)
    requires PolicyInv(s, policy) && Step(PolicyJudge(policy), s, e).Some?
    ensures PolicyInv(Step(PolicyJudge(policy), s, e).value, policy)
  {
    hide InOrder, Kept, Tolerated, OnExit;
    if e.Exit? {
      CrashKeepsPolicy(s, e, policy);
    }
  }

  /**
   * Over every run judged by the policy, the history the primary holds is the one pruned at each crash;
   * and while the clock does not step back, until shutdown no window of `windowMs` ever held more than
   * `maxCrashes` crashes: respawning is rate limited, whatever the workers do.
   */
  lemma {:induction false} CrashesAreRateLimited(policy: CrashPolicy, workers: nat, events: seq<Event>)
    requires RunFrom(PolicyJudge(policy), Supervised(workers), events).Some?
    ensures PolicyInv(RunFrom(PolicyJudge(policy), Supervised(workers), events).value, policy)
  {
    hide Step, PolicyInv, Supervised, PolicyJudge;
    if events == [] {
      NoCrashYet(workers, policy);
    } else {
      var before := events[..|events| - 1];
      CrashesAreRateLimited(policy, workers, before);
      StepKeepsPolicy(RunFrom(PolicyJudge(policy), Supervised(workers), before).value, events[|events| - 1], policy);
    }
  }

  lemma {:induction false} NoCrashYet(workers: nat, policy: CrashPolicy)
    ensures PolicyInv(Supervised(workers), policy)
  {
    hide ForkMany;
    StartIsSound(workers, workers);
  }
}
