/**
 * The demo profile's restores: queued behind one another, built once per scenario and replayed
 * thereafter. A protocol over its steps: any caller may call, any step may fail, and the rest of
 * the application may write at any moment. A step that works on all collections at once rejects at its
 * first failure, so what it had under way can still land while later restores run.
 */
module RestoreQueue {
  import opened Basics
  import opened DemoDatabase

  /** The registry: which scenarios exist, and which one an unnamed restore means. */
  datatype Registry = Registry(names: set<string>, default: string)

  /** One scenario as this process built it. */
  datatype Snapshot = Snapshot(name: string, database: Copy, subjects: map<string, string>)

  /** What a running restore awaits. */
  datatype Phase =
    | Choosing
    | Emptying(name: string)
    | Building(name: string)
    | Capturing(name: string, subjects: map<string, string>)
    | ReplayEmptying(copy: Snapshot)
    | Inserting(copy: Snapshot)
    | Tidying(copy: Snapshot)
    | RefreshingLocales(copy: Snapshot)
    | ClearingCache(copy: Snapshot)

  datatype Status = Waiting | Running(phase: Phase) | Done(ok: bool)

  /**
   * One call of `restoreScenario`: it runs once the promise it was chained onto has settled. A call
   * that failed keeps the phase it broke in.
   */
  datatype Call = Call(scenario: Option<string>, after: Option<nat>, status: Status, broke: Option<Phase>)

  /**
   * `tail` is the queue's last promise. `builds` logs every completed build; the two `touched` flags
   * say whether anyone else, or a restore that had failed, wrote since the running restore last began to
   * clear or to copy the data, or since it cleared the outbox and the clock.
   */
  datatype State = State(calls: seq<Call>, tail: Option<nat>, copies: map<string, Snapshot>, current: Option<string>,
                         db: Copy, outbox: seq<string>, offset: real,
                         builds: seq<string>, dbTouched: bool, sideTouched: bool)

  datatype Event =
    | Restore(scenario: Option<string>)
    | Begin(i: nat)
    | Proceed(i: nat, subjects: map<string, string>, db: Copy)
    | Break(i: nat, db: Copy)
    | Flow(i: nat, db: Copy, outbox: seq<string>, offset: real)
    | Late(i: nat, db: Copy, outbox: seq<string>, offset: real)
    | Outside(db: Copy, outbox: seq<string>, offset: real)

  function Start(db: Copy, outbox: seq<string>, offset: real): State {
    State([], None, map[], None, db, outbox, offset, [], true, true)
  }

  function Requested(reg: Registry, c: Call): string {
    if c.scenario.Some? then c.scenario.value else reg.default
  }

  function SetStatus(s: State, i: nat, status: Status): State
    requires i < |s.calls|
  {
    s.(calls := s.calls[i := s.calls[i].(status := status)])
  }

  predicate IsRunning(s: State, i: nat) {
    i < |s.calls| && s.calls[i].status.Running?
  }

  /** Where a running restore goes when the step it awaits completes. */
  function NextStatus(reg: Registry, s: State, c: Call, subjects: map<string, string>, db: Copy): Status
    requires c.status.Running?
  {
    match c.status.phase
    case Choosing =>
      var name := Requested(reg, c);
      if name !in reg.names then Done(false)
      else if name in s.copies then Running(ReplayEmptying(s.copies[name]))
      else Running(Emptying(name))
    case Emptying(name) => Running(Building(name))
    case Building(name) => Running(Capturing(name, subjects))
    case Capturing(name, built) => Running(ReplayEmptying(Snapshot(name, Unless(s, s.db, db), built)))
    case ReplayEmptying(copy) => Running(Inserting(copy))
    case Inserting(copy) => Running(Tidying(copy))
    case Tidying(copy) => Running(RefreshingLocales(copy))
    case RefreshingLocales(copy) => Running(ClearingCache(copy))
    case ClearingCache(_) => Done(true)
  }

  /**
   * What a step over all collections yields: it works collection by collection, so with a write of
   * somebody else in between any content may come out.
   */
  function Unless(s: State, undisturbed: Copy, disturbed: Copy): Copy {
    if s.dbTouched then disturbed else undisturbed
  }

  predicate HoldsNothing(db: Copy) {
    forall c :: c in db ==> db[c] == multiset{}
  }

  lemma {:induction false} RowsIntoNothing(db: Copy, rows: Copy)
    requires HoldsNothing(db)
    ensures WithRows(db, rows) == rows
  {
    forall c | c in rows ensures WithRows(db, rows)[c] == rows[c] {
      assert rows[c] + multiset{} == rows[c];
    }
  }

  lemma {:induction false} ClearedHoldsNothing(db: Copy)
    ensures HoldsNothing(Cleared(db))
  {
  }

  /** What completing a step does to everything but the calls. */
  function Effect(s: State, phase: Phase, db: Copy): State {
    match phase
    case Emptying(_) => s.(db := Unless(s, Cleared(s.db), db))
    case Capturing(name, built) =>
      s.(copies := s.copies[name := Snapshot(name, Unless(s, s.db, db), built)], builds := s.builds + [name])
    case ReplayEmptying(_) => s.(db := Unless(s, Cleared(s.db), db))
    case Inserting(copy) => s.(db := Unless(s, WithRows(s.db, copy.database), db), current := Some(copy.name))
    case Tidying(_) => s.(outbox := [], offset := 0.0, sideTouched := false)
    case _ => s
  }

  /** Writes of others count from the moment a step over all collections begins. */
  function Enter(s: State, next: Status): State {
    if next.Running? && (next.phase.Emptying? || next.phase.Capturing? || next.phase.ReplayEmptying?)
    then s.(dbTouched := false) else s
  }

  /** The awaited step of restore i completes, and the next one begins. */
  function Advance(reg: Registry, s: State, i: nat, subjects: map<string, string>, db: Copy): State
    requires IsRunning(s, i)
  {
    var next := NextStatus(reg, s, s.calls[i], subjects, db);
    SetStatus(Enter(Effect(s, s.calls[i].status.phase, db), next), i, next)
  }

  /** Documents were deleted, and nothing else. */
  predicate Shrinks(before: Copy, after: Copy) {
    after.Keys == before.Keys && forall c :: c in after ==> after[c] <= before[c]
  }

  /** Documents of these were inserted, and nothing else. */
  predicate Gains(before: Copy, rows: Copy, after: Copy) {
    && after.Keys == before.Keys
    && forall c :: c in after ==> before[c] <= after[c] <= before[c] + if c in rows then rows[c] else multiset{}
  }

  /** What can still land of a restore that broke in this phase: its deletes, its inserts, its flows' requests. */
  predicate CanLand(phase: Phase, s: State, db: Copy, outbox: seq<string>, offset: real) {
    match phase
    case Building(_) => true
    case Emptying(_) => Shrinks(s.db, db) && outbox == s.outbox && offset == s.offset
    case ReplayEmptying(_) => Shrinks(s.db, db) && outbox == s.outbox && offset == s.offset
    case Inserting(copy) => Gains(s.db, copy.database, db) && outbox == s.outbox && offset == s.offset
    case _ => false
  }

  /** A restore that failed with work under way. */
  predicate IsBroken(s: State, i: nat) {
    i < |s.calls| && s.calls[i].status == Done(false) && s.calls[i].broke.Some?
  }

  function Broken(s: State, i: nat): State
    requires IsRunning(s, i)
  {
    s.(calls := s.calls[i := s.calls[i].(status := Done(false), broke := Some(s.calls[i].status.phase))])
  }

  /** One event, or nothing when it cannot happen now. */
  function Step(reg: Registry, s: State, e: Event): Option<State> {
    match e
    case Restore(scenario) =>
      Some(s.(calls := s.calls + [Call(scenario, s.tail, Waiting, None)], tail := Some(|s.calls|)))
    case Begin(i) =>
      if i < |s.calls| && s.calls[i].status == Waiting &&
         (s.calls[i].after.None? || (s.calls[i].after.value < |s.calls| && s.calls[s.calls[i].after.value].status.Done?))
      then Some(SetStatus(s, i, Running(Choosing))) else None
    case Proceed(i, subjects, db) =>
      if IsRunning(s, i) then Some(Advance(reg, s, i, subjects, db)) else None
    case Break(i, db) =>
      // Choosing and Tidying are synchronous; every other step may reject, and may have written part of its work.
      if IsRunning(s, i) && !s.calls[i].status.phase.Choosing? && !s.calls[i].status.phase.Tidying?
      then Some(Broken(s, i).(db := db)) else None
    case Flow(i, db, outbox, offset) =>
      if IsRunning(s, i) && s.calls[i].status.phase.Building?
      then Some(s.(db := db, outbox := outbox, offset := offset)) else None
    case Late(i, db, outbox, offset) =>
      if IsBroken(s, i) && CanLand(s.calls[i].broke.value, s, db, outbox, offset)
      then Some(s.(db := db, outbox := outbox, offset := offset, dbTouched := true,
                   sideTouched := s.sideTouched || outbox != s.outbox || offset != s.offset))
      else None
    case Outside(db, outbox, offset) =>
      Some(s.(db := db, outbox := outbox, offset := offset, dbTouched := true, sideTouched := true))
  }

  /** The state after a run of events, or nothing when one of them could not happen. */
  function RunFrom(reg: Registry, s: State, events: seq<Event>): Option<State> {
    if events == [] then Some(s)
    else
      match RunFrom(reg, s, events[..|events| - 1])
      case None => None
      case Some(t) => Step(reg, t, events[|events| - 1])
  }

  // ---------------------------------------------------------------- the invariant

  /** What the running restore knows in each phase. */
  ghost predicate PhaseOK(reg: Registry, s: State, c: Call) {
    c.status.Running? ==>
      var name := Requested(reg, c);
      match c.status.phase
      case Choosing => true
      case Emptying(n) => n == name && n in reg.names && n !in s.copies
      case Building(n) => n == name && n in reg.names && n !in s.copies
      case Capturing(n, _) => n == name && n in reg.names && n !in s.copies
      case ReplayEmptying(copy) => Replays(s, copy, name)
      case Inserting(copy) => Replays(s, copy, name) && (s.dbTouched || HoldsNothing(s.db))
      case Tidying(copy) => Replays(s, copy, name) && Restored(s, copy)
      case RefreshingLocales(copy) => Replays(s, copy, name) && Restored(s, copy) && Tidied(s)
      case ClearingCache(copy) => Replays(s, copy, name) && Restored(s, copy) && Tidied(s)
  }

  ghost predicate Replays(s: State, copy: Snapshot, name: string) {
    copy.name == name && name in s.copies && s.copies[name] == copy
  }

  /** The scenario is the current one, and its data is back unless someone else wrote since. */
  ghost predicate Restored(s: State, copy: Snapshot) {
    s.current == Some(copy.name) && (s.dbTouched || s.db == copy.database)
  }

  ghost predicate Tidied(s: State) {
    s.sideTouched || (s.outbox == [] && s.offset == 0.0)
  }

  ghost predicate Queued(s: State) {
    && s.tail == (if s.calls == [] then None else Some(|s.calls| - 1))
    && (forall i :: 0 <= i < |s.calls| ==> s.calls[i].after == if i == 0 then None else Some(i - 1))
    && forall i, j :: 0 <= j < i < |s.calls| && !s.calls[i].status.Waiting? ==> s.calls[j].status.Done?
  }

  ghost predicate BuiltOnce(reg: Registry, s: State) {
    && Distinct(s.builds)
    && (forall n :: n in s.builds <==> n in s.copies)
    && (forall n :: n in s.copies ==> n in reg.names && s.copies[n].name == n)
    && (s.current.Some? ==> s.current.value in s.copies)
  }

  ghost predicate Inv(reg: Registry, s: State) {
    && Queued(s)
    && BuiltOnce(reg, s)
    && forall i :: 0 <= i < |s.calls| ==> PhaseOK(reg, s, s.calls[i])
  }

  lemma {:induction false} OnlyOneRuns(s: State, i: nat, j: nat)
    requires Queued(s) && IsRunning(s, i) && j < |s.calls| && j != i
    ensures j < i ==> s.calls[j].status.Done?
    ensures j > i ==> s.calls[j].status.Waiting?
  {
  }

  lemma {:induction false} EffectKeepsCalls(s: State, phase: Phase, db: Copy)
    ensures Effect(s, phase, db).calls == s.calls && Effect(s, phase, db).tail == s.tail
  {
    hide Cleared;
  }

  lemma {:induction false} SettingKeepsQueue(s: State, i: nat, status: Status)
    requires Queued(s) && IsRunning(s, i) && !status.Waiting?
    ensures Queued(SetStatus(s, i, status))
  {
  }

  lemma {:induction false} AdvanceKeepsQueue(reg: Registry, s: State, i: nat, subjects: map<string, string>, db: Copy)
    requires Queued(s) && IsRunning(s, i)
    ensures Queued(Advance(reg, s, i, subjects, db))
  {
    hide Effect, NextStatus, Queued;
    NextIsNotWaiting(reg, s, s.calls[i], subjects, db);
    EffectKeepsCalls(s, s.calls[i].status.phase, db);
    SettingKeepsQueue(s, i, NextStatus(reg, s, s.calls[i], subjects, db));
    SameQueue(SetStatus(s, i, NextStatus(reg, s, s.calls[i], subjects, db)), Advance(reg, s, i, subjects, db));
  }

  lemma {:induction false} NextIsNotWaiting(reg: Registry, s: State, c: Call, subjects: map<string, string>, db: Copy)
    requires c.status.Running?
    ensures !NextStatus(reg, s, c, subjects, db).Waiting?
  {
    hide Requested;
  }

  lemma {:induction false} SameQueue(s: State, t: State)
    requires Queued(s) && s.calls == t.calls && s.tail == t.tail
    ensures Queued(t)
  {
  }

  lemma {:induction false} AdvanceCalls(reg: Registry, s: State, i: nat, subjects: map<string, string>, db: Copy)
    requires IsRunning(s, i)
    ensures var t := Advance(reg, s, i, subjects, db);
            && t.calls == s.calls[i := s.calls[i].(status := NextStatus(reg, s, s.calls[i], subjects, db))]
            && t == Enter(Effect(s, s.calls[i].status.phase, db), t.calls[i].status).(calls := t.calls)
  {
    hide Effect, NextStatus;
    EffectKeepsCalls(s, s.calls[i].status.phase, db);
  }

  /** A build is logged, and its copy kept, only for a scenario that had none. */
  lemma {:induction false} EffectKeepsBuilds(reg: Registry, s: State, phase: Phase, db: Copy)
    requires BuiltOnce(reg, s)
    requires phase.Capturing? ==> phase.name in reg.names && phase.name !in s.copies
    requires phase.Inserting? ==> phase.copy.name in s.copies
    ensures BuiltOnce(reg, Effect(s, phase, db))
    ensures forall n :: n in s.copies ==>
              n in Effect(s, phase, db).copies && Effect(s, phase, db).copies[n] == s.copies[n]
  {
    hide Cleared;
  }

  lemma {:induction false} PhaseFacts(reg: Registry, s: State, c: Call)
    requires c.status.Running? && PhaseOK(reg, s, c)
    ensures c.status.phase.Capturing? ==> c.status.phase.name in reg.names && c.status.phase.name !in s.copies
    ensures c.status.phase.Inserting? ==> c.status.phase.copy.name in s.copies
  {
    hide Requested, Restored, Tidied;
  }

  lemma {:induction false} SameBuilds(reg: Registry, s: State, t: State)
    requires BuiltOnce(reg, s) && t.builds == s.builds && t.copies == s.copies && t.current == s.current
    ensures BuiltOnce(reg, t)
  {
  }

  lemma {:induction false} AdvanceKeepsBuilds(reg: Registry, s: State, i: nat, subjects: map<string, string>, db: Copy)
    requires BuiltOnce(reg, s) && IsRunning(s, i) && PhaseOK(reg, s, s.calls[i])
    ensures BuiltOnce(reg, Advance(reg, s, i, subjects, db))
    ensures forall n :: n in s.copies ==>
              n in Advance(reg, s, i, subjects, db).copies && Advance(reg, s, i, subjects, db).copies[n] == s.copies[n]
  {
    hide NextStatus, Effect, BuiltOnce, PhaseOK, Advance;
    AdvanceCalls(reg, s, i, subjects, db);
    PhaseFacts(reg, s, s.calls[i]);
    EffectKeepsBuilds(reg, s, s.calls[i].status.phase, db);
    SameBuilds(reg, Effect(s, s.calls[i].status.phase, db), Advance(reg, s, i, subjects, db));
  }

  lemma {:induction false} AdvanceKeepsPhase(reg: Registry, s: State, i: nat, subjects: map<string, string>, db: Copy)
    requires BuiltOnce(reg, s) && IsRunning(s, i) && PhaseOK(reg, s, s.calls[i])
    ensures PhaseOK(reg, Advance(reg, s, i, subjects, db), Advance(reg, s, i, subjects, db).calls[i])
  {
    hide NextStatus, Effect, BuiltOnce, PhaseOK, Advance;
    AdvanceCalls(reg, s, i, subjects, db);
    var t, c := Advance(reg, s, i, subjects, db), s.calls[i];
    if c.status.phase.Choosing? || c.status.phase.Emptying? || c.status.phase.Building? || c.status.phase.Capturing? {
      BuildPhases(reg, s, c, subjects, db, t);
    } else {
      ReplayPhases(reg, s, c, subjects, db, t);
    }
  }

  lemma {:induction false} BuildPhases(reg: Registry, s: State, c: Call, subjects: map<string, string>, db: Copy, t: State)
    requires BuiltOnce(reg, s) && c.status.Running? && PhaseOK(reg, s, c)
    requires c.status.phase.Choosing? || c.status.phase.Emptying? || c.status.phase.Building? || c.status.phase.Capturing?
    requires t == Enter(Effect(s, c.status.phase, db), NextStatus(reg, s, c, subjects, db)).(calls := t.calls)
    ensures PhaseOK(reg, t, c.(status := NextStatus(reg, s, c, subjects, db)))
  {
    hide Cleared, Distinct, Restored, Tidied;
    assert Requested(reg, c.(status := NextStatus(reg, s, c, subjects, db))) == Requested(reg, c);
    hide Requested;
  }

  lemma {:induction false} ReplayPhases(reg: Registry, s: State, c: Call, subjects: map<string, string>, db: Copy, t: State)
    requires c.status.Running? && PhaseOK(reg, s, c)
    requires !(c.status.phase.Choosing? || c.status.phase.Emptying? || c.status.phase.Building? || c.status.phase.Capturing?)
    requires t == Enter(Effect(s, c.status.phase, db), NextStatus(reg, s, c, subjects, db)).(calls := t.calls)
    ensures PhaseOK(reg, t, c.(status := NextStatus(reg, s, c, subjects, db)))
  {
    if c.status.phase.Inserting? && !s.dbTouched {
      RowsIntoNothing(s.db, c.status.phase.copy.database);
    }
    ClearedHoldsNothing(s.db);
    hide Cleared, Distinct, WithRows, HoldsNothing;
    assert Requested(reg, c.(status := NextStatus(reg, s, c, subjects, db))) == Requested(reg, c);
    hide Requested;
  }

  lemma {:induction false} StepKeepsInv(reg: Registry, s: State, e: Event)
    requires Inv(reg, s) && Step(reg, s, e).Some?
    ensures Inv(reg, Step(reg, s, e).value)
  {
    hide Advance, Cleared, NextStatus, Effect, PhaseOK, Queued, BuiltOnce;
    var t := Step(reg, s, e).value;
    match e
    case Proceed(i, subjects, db) =>
      AdvanceCalls(reg, s, i, subjects, db);
      AdvanceKeepsQueue(reg, s, i, subjects, db);
      AdvanceKeepsBuilds(reg, s, i, subjects, db);
      AdvanceKeepsPhase(reg, s, i, subjects, db);
      forall j | 0 <= j < |t.calls| && j != i ensures PhaseOK(reg, t, t.calls[j]) {
        OnlyOneRuns(s, i, j);
        IdleIsFine(reg, t, t.calls[j]);
      }
    case _ =>
      EasyStepKeepsQueue(reg, s, e);
      EasyStepKeepsPhases(reg, s, e);
      EasyStepKeepsBuilds(reg, s, e);
  }

  lemma {:induction false} IdleIsFine(reg: Registry, s: State, c: Call)
    requires !c.status.Running?
    ensures PhaseOK(reg, s, c)
  {
  }

  lemma {:induction false} EasyStepKeepsBuilds(reg: Registry, s: State, e: Event)
    requires BuiltOnce(reg, s) && Step(reg, s, e).Some? && !e.Proceed?
    ensures BuiltOnce(reg, Step(reg, s, e).value)
  {
    hide Advance;
  }

  lemma {:induction false} EasyStepKeepsQueue(reg: Registry, s: State, e: Event)
    requires Queued(s) && Step(reg, s, e).Some? && !e.Proceed?
    ensures Queued(Step(reg, s, e).value)
  {
    hide Advance;
  }

  lemma {:induction false} EasyStepKeepsPhases(reg: Registry, s: State, e: Event)
    requires Queued(s) && Step(reg, s, e).Some? && !e.Proceed?
    requires forall i :: 0 <= i < |s.calls| ==> PhaseOK(reg, s, s.calls[i])
    ensures var t := Step(reg, s, e).value; forall i :: 0 <= i < |t.calls| ==> PhaseOK(reg, t, t.calls[i])
  {
    hide Advance, Requested;
    var t := Step(reg, s, e).value;
    forall j | 0 <= j < |t.calls| ensures PhaseOK(reg, t, t.calls[j]) {
      if e.Break? && j != e.i {
        OnlyOneRuns(s, e.i, j);
      }
      if e.Flow? && j != e.i {
        OnlyOneRuns(s, e.i, j);
      }
    }
  }

  // ---------------------------------------------------------------- main results

  /** Every state any interleaving of calls, completions, failures and outside writes can reach is sound. */
  lemma {:induction false} EveryRunIsSound(reg: Registry, db: Copy, outbox: seq<string>, offset: real, events: seq<Event>)
    ensures RunFrom(reg, Start(db, outbox, offset), events).Some? ==>
            Inv(reg, RunFrom(reg, Start(db, outbox, offset), events).value)
  {
    hide Step;
    var s := Start(db, outbox, offset);
    if events != [] {
      EveryRunIsSound(reg, db, outbox, offset, events[..|events| - 1]);
      if RunFrom(reg, s, events).Some? {
        StepKeepsInv(reg, RunFrom(reg, s, events[..|events| - 1]).value, events[|events| - 1]);
      }
    }
  }

  /** Restores never overlap, and run in the order they were called. */
  lemma {:induction false} RestoresRunOneAtATimeInOrder(reg: Registry, db: Copy, outbox: seq<string>, offset: real,
                                                        events: seq<Event>, i: nat, j: nat)
    requires RunFrom(reg, Start(db, outbox, offset), events).Some?
    ensures var s := RunFrom(reg, Start(db, outbox, offset), events).value;
            && (IsRunning(s, i) && IsRunning(s, j) ==> i == j)
            && (j < i < |s.calls| && !s.calls[i].status.Waiting? ==> s.calls[j].status.Done?)
  {
    hide Step, RunFrom, PhaseOK, BuiltOnce;
    EveryRunIsSound(reg, db, outbox, offset, events);
  }

  /** The call at the head of the queue can always make progress, however the ones before it ended. */
  lemma {:induction false} NothingWedgesTheQueue(reg: Registry, s: State, i: nat, subjects: map<string, string>, db: Copy)
    requires Inv(reg, s) && i < |s.calls| && !s.calls[i].status.Done?
    requires forall j :: 0 <= j < i ==> s.calls[j].status.Done?
    ensures Step(reg, s, if s.calls[i].status.Waiting? then Begin(i) else Proceed(i, subjects, db)).Some?
  {
    hide Advance, BuiltOnce, PhaseOK;
  }

  /** No scenario is ever built to completion twice, and whatever is current was built. */
  lemma {:induction false} EachScenarioIsBuiltOnce(reg: Registry, db: Copy, outbox: seq<string>, offset: real, events: seq<Event>)
    requires RunFrom(reg, Start(db, outbox, offset), events).Some?
    ensures var s := RunFrom(reg, Start(db, outbox, offset), events).value;
            && Distinct(s.builds)
            && (forall n :: n in s.builds <==> n in s.copies)
            && (s.current.Some? ==> s.current.value in s.copies && s.copies[s.current.value].name == s.current.value)
  {
    hide Step, RunFrom, PhaseOK, Queued;
    EveryRunIsSound(reg, db, outbox, offset, events);
  }

  /** A scenario's copy is fixed for good once it is taken, and a settled call keeps its outcome. */
  lemma {:induction false} StepKeepsThePast(reg: Registry, s: State, e: Event)
    requires Inv(reg, s) && Step(reg, s, e).Some?
    ensures var t := Step(reg, s, e).value;
            && (forall n :: n in s.copies ==> n in t.copies && t.copies[n] == s.copies[n])
            && |s.calls| <= |t.calls|
            && (forall i :: 0 <= i < |s.calls| && s.calls[i].status.Done? ==> t.calls[i] == s.calls[i])
  {
    hide Advance, Effect, NextStatus, PhaseOK, BuiltOnce, Queued;
    if e.Proceed? {
      AdvanceCalls(reg, s, e.i, e.subjects, e.db);
      AdvanceKeepsBuilds(reg, s, e.i, e.subjects, e.db);
    }
  }

  lemma {:induction false} RunKeepsThePast(reg: Registry, s: State, events: seq<Event>)
    requires Inv(reg, s) && RunFrom(reg, s, events).Some?
    ensures var t := RunFrom(reg, s, events).value;
            && Inv(reg, t)
            && (forall n :: n in s.copies ==> n in t.copies && t.copies[n] == s.copies[n])
            && |s.calls| <= |t.calls|
            && (forall i :: 0 <= i < |s.calls| && s.calls[i].status.Done? ==> t.calls[i] == s.calls[i])
  {
    hide Step, Inv;
    if events != [] {
      var before := events[..|events| - 1];
      RunKeepsThePast(reg, s, before);
      StepKeepsThePast(reg, RunFrom(reg, s, before).value, events[|events| - 1]);
      StepKeepsInv(reg, RunFrom(reg, s, before).value, events[|events| - 1]);
    }
  }

  /** A call's outcome is its own: only its own steps move it. */
  lemma {:induction false} OutcomesAreOwn(reg: Registry, s: State, e: Event, i: nat)
    requires Step(reg, s, e).Some? && i < |s.calls|
    requires !(e.Begin? && e.i == i) && !(e.Proceed? && e.i == i) && !(e.Break? && e.i == i)
    ensures |s.calls| <= |Step(reg, s, e).value.calls| && Step(reg, s, e).value.calls[i] == s.calls[i]
  {
    hide Advance, NextStatus, Effect;
    if e.Proceed? {
      AdvanceCalls(reg, s, e.i, e.subjects, e.db);
    }
  }

  /** An unknown scenario fails its own call and touches nothing else. */
  lemma {:induction false} UnknownScenarioOnlyFails(reg: Registry, s: State, i: nat, subjects: map<string, string>, db: Copy)
    requires IsRunning(s, i) && s.calls[i].status.phase.Choosing?
    requires (if s.calls[i].scenario.Some? then s.calls[i].scenario.value else reg.default) !in reg.names
    ensures Step(reg, s, Proceed(i, subjects, db)) == Some(SetStatus(s, i, Done(false)))
  {
  }

  /**
   * What lands late of a restore that failed: of its emptying, any of its deletes and nothing else; while
   * it inserted, any rows of its copy; of its flows, anything; of every other step, nothing.
   */
  lemma {:induction false} LandsExactly(reg: Registry, s: State, i: nat, db: Copy, phase: Phase)
    requires i < |s.calls| && s.calls[i].status == Done(false) && s.calls[i].broke == Some(phase)
    requires db.Keys == s.db.Keys
    ensures var lands := Step(reg, s, Late(i, db, s.outbox, s.offset)).Some?;
            && (phase.Emptying? || phase.ReplayEmptying? ==> (lands <==> forall c :: c in db ==> db[c] <= s.db[c]))
            && (phase.Inserting? ==>
                  (lands <==> forall c :: c in db ==>
                     s.db[c] <= db[c] && db[c] - s.db[c] <= if c in phase.copy.database then phase.copy.database[c] else multiset{}))
            && (phase.Building? ==> lands)
            && (phase.Choosing? || phase.Capturing? || phase.Tidying? || phase.RefreshingLocales? || phase.ClearingCache? ==> !lands)
    ensures forall outbox, offset :: outbox != s.outbox || offset != s.offset ==>
              (Step(reg, s, Late(i, db, outbox, offset)).Some? <==> phase.Building?)
  {
    forall c | c in db
      ensures forall rows: multiset<Document> ::
                s.db[c] <= db[c] <= s.db[c] + rows <==> s.db[c] <= db[c] && db[c] - s.db[c] <= rows
    {
    }
  }

  /**
   * Beside the rest of the application, only the running restore writes, and restores before it that
   * failed with work under way.
   */
  lemma {:induction false} OnlyBrokenRestoresOverlap(reg: Registry, s: State, e: Event, t: State)
    requires Inv(reg, s) && Step(reg, s, e) == Some(t) && !e.Outside?
    requires t.db != s.db || t.outbox != s.outbox || t.offset != s.offset
    ensures e.Proceed? || e.Break? || e.Flow? || e.Late?
    ensures e.Late? ==> IsBroken(s, e.i) && forall r :: IsRunning(s, r) ==> e.i < r
    ensures !e.Late? ==> IsRunning(s, e.i) && forall r :: IsRunning(s, r) ==> e.i == r
  {
    hide Advance, PhaseOK, BuiltOnce, CanLand;
  }

  /**
   * When a restore succeeds, the scenario it was asked for is the current one; the database is that
   * scenario's copy unless somebody else, or a restore that had failed, wrote since the emptying before
   * the replay began; and the outbox is empty and the clock at real time unless they wrote since those
   * were cleared.
   */
  lemma {:induction false} SuccessMeansRestored(reg: Registry, s: State, e: Event, t: State, i: nat)
    requires Inv(reg, s) && Step(reg, s, e) == Some(t) && i < |s.calls| && i < |t.calls|
    requires !s.calls[i].status.Done? && t.calls[i].status == Done(true)
    ensures var name := if s.calls[i].scenario.Some? then s.calls[i].scenario.value else reg.default;
            && name in reg.names && name in t.copies && t.current == Some(name)
            && (!t.dbTouched ==> t.db == t.copies[name].database)
            && (!t.sideTouched ==> t.outbox == [] && t.offset == 0.0)
  {
    hide Step, Queued, BuiltOnce, Advance, PhaseOK;
    OnlyCompletionSucceeds(reg, s, e, t, i);
    CompletionChangesNothingElse(reg, s, e, i);
    BuiltScenariosExist(reg, s);
    ClearingKnows(reg, s, s.calls[i]);
  }

  lemma {:induction false} ClearingKnows(reg: Registry, s: State, c: Call)
    requires PhaseOK(reg, s, c) && c.status.Running? && c.status.phase.ClearingCache?
    ensures Replays(s, c.status.phase.copy, Requested(reg, c)) && Restored(s, c.status.phase.copy) && Tidied(s)
  {
    hide Requested, Replays, Restored, Tidied;
  }

  lemma {:induction false} OnlyCompletionSucceeds(reg: Registry, s: State, e: Event, t: State, i: nat)
    requires Step(reg, s, e) == Some(t) && i < |s.calls| && i < |t.calls|
    requires !s.calls[i].status.Done? && t.calls[i].status == Done(true)
    ensures e.Proceed? && e.i == i && IsRunning(s, i) && s.calls[i].status.phase.ClearingCache?
  {
    hide Advance, NextStatus, Effect, Enter;
    if e.Proceed? {
      AdvanceCalls(reg, s, e.i, e.subjects, e.db);
      NextIsDone(reg, s, s.calls[e.i], e.subjects, e.db);
    }
  }

  lemma {:induction false} NextIsDone(reg: Registry, s: State, c: Call, subjects: map<string, string>, db: Copy)
    requires c.status.Running?
    ensures NextStatus(reg, s, c, subjects, db) == Done(true) <==> c.status.phase.ClearingCache?
  {
    hide Requested, Unless;
  }

  lemma {:induction false} CompletionChangesNothingElse(reg: Registry, s: State, e: Event, i: nat)
    requires e.Proceed? && e.i == i && IsRunning(s, i) && s.calls[i].status.phase.ClearingCache?
    ensures Step(reg, s, e).Some? && Step(reg, s, e).value == s.(calls := Step(reg, s, e).value.calls)
  {
  }

  lemma {:induction false} BuiltScenariosExist(reg: Registry, s: State)
    requires BuiltOnce(reg, s)
    ensures forall n :: n in s.copies ==> n in reg.names && s.copies[n].name == n
  {
  }

  /** A write by the rest of the application, or by a restore that has already failed. */
  predicate Disturbs(e: Event) {
    e.Outside? || e.Late?
  }

  /** While a restore runs, the flags only ever rise by a write of others. */
  ghost predicate Undisturbed(s: State, i: nat) {
    IsRunning(s, i) ==>
      && (!s.calls[i].status.phase.Choosing? ==> !s.dbTouched)
      && (s.calls[i].status.phase.RefreshingLocales? || s.calls[i].status.phase.ClearingCache? ==> !s.sideTouched)
  }

  lemma {:induction false} StaysUndisturbed(reg: Registry, s: State, e: Event, t: State, i: nat)
    requires Inv(reg, s) && Step(reg, s, e) == Some(t) && !Disturbs(e) && i < |s.calls|
    requires Undisturbed(s, i)
    ensures Undisturbed(t, i)
  {
    hide Advance, PhaseOK, BuiltOnce, Requested;
    if e.Proceed? && e.i == i {
      NextIsUndisturbed(reg, s, s.calls[i], i, e.subjects, e.db);
    } else if e.Proceed? {
      OnlyOneRuns(s, e.i, i);
      AdvanceCalls(reg, s, e.i, e.subjects, e.db);
    } else if e.Break? && e.i != i {
      OnlyOneRuns(s, e.i, i);
    }
  }

  lemma {:induction false} NextIsUndisturbed(reg: Registry, s: State, c: Call, i: nat, subjects: map<string, string>, db: Copy)
    requires IsRunning(s, i) && s.calls[i] == c && Undisturbed(s, i)
    ensures Undisturbed(Advance(reg, s, i, subjects, db), i)
  {
    hide Requested, Cleared;
  }

  lemma {:induction false} RunStaysUndisturbed(reg: Registry, s: State, events: seq<Event>, t: State, i: nat)
    requires Inv(reg, s) && RunFrom(reg, s, events) == Some(t) && i < |s.calls| && Undisturbed(s, i)
    requires forall k :: 0 <= k < |events| ==> !Disturbs(events[k])
    ensures Inv(reg, t) && |s.calls| <= |t.calls| && Undisturbed(t, i)
  {
    hide Step, Inv, Undisturbed, Disturbs;
    RunKeepsThePast(reg, s, events);
    if events != [] {
      var before := events[..|events| - 1];
      var u := RunFrom(reg, s, before).value;
      RunStaysUndisturbed(reg, s, before, u, i);
      StaysUndisturbed(reg, u, events[|events| - 1], t, i);
    }
  }

  /**
   * From the moment a restore waits in the queue, whatever calls, failures and other restores come
   * before its turn: if no write of others lands until it succeeds, the database is its scenario's
   * copy, the outbox empty and the clock at real time.
   */
  lemma {:induction false} UndisturbedRestoreIsExact(reg: Registry, s: State, events: seq<Event>, t: State, last: Event, u: State, i: nat)
    requires Inv(reg, s) && i < |s.calls| && s.calls[i].status.Waiting?
    requires RunFrom(reg, s, events) == Some(t) && Step(reg, t, last) == Some(u)
    requires forall k :: 0 <= k < |events| ==> !Disturbs(events[k])
    requires i < |t.calls| && !t.calls[i].status.Done? && i < |u.calls| && u.calls[i].status == Done(true)
    ensures var name := if t.calls[i].scenario.Some? then t.calls[i].scenario.value else reg.default;
            && u.current == Some(name) && name in u.copies && u.db == u.copies[name].database
            && u.outbox == [] && u.offset == 0.0
  {
    hide Step, Inv, RunFrom, Disturbs;
    RunStaysUndisturbed(reg, s, events, t, i);
    SuccessMeansRestored(reg, t, last, u, i);
    LastStepKeepsFlags(reg, t, last, u, i);
  }

  lemma {:induction false} LastStepKeepsFlags(reg: Registry, s: State, e: Event, t: State, i: nat)
    requires Step(reg, s, e) == Some(t) && i < |s.calls| && i < |t.calls|
    requires !s.calls[i].status.Done? && t.calls[i].status == Done(true) && Undisturbed(s, i)
    ensures !t.dbTouched && !t.sideTouched
  {
    hide Step;
    OnlyCompletionSucceeds(reg, s, e, t, i);
    CompletionChangesNothingElse(reg, s, e, i);
  }

  /** The flows begin on an empty database, unless others wrote while it was emptied. */
  lemma {:induction false} FlowsBeginOnNothing(reg: Registry, s: State, i: nat, name: string, subjects: map<string, string>, db: Copy)
    requires IsRunning(s, i) && s.calls[i].status.phase == Emptying(name) && !s.dbTouched
    ensures var t := Step(reg, s, Proceed(i, subjects, db));
            t.Some? && Builds(t.value, i, name) && HoldsNothing(t.value.db) && t.value.db.Keys == s.db.Keys
  {
  }

  // ---------------------------------------------------------------- from the flows to every replay

  /** The running call builds its scenario; everything its flows wrote is in the database. */
  ghost predicate Builds(s: State, i: nat, name: string) {
    IsRunning(s, i) && s.calls[i].status.phase == Building(name)
  }

  /** From the moment the call's flows are done: their rows are in the database, or in the copy it made of it. */
  ghost predicate Carries(s: State, i: nat, snapshot: Snapshot) {
    IsRunning(s, i) ==>
      match s.calls[i].status.phase
      case Capturing(name, subjects) => name == snapshot.name && subjects == snapshot.subjects && s.db == snapshot.database
      case ReplayEmptying(copy) => copy == snapshot
      case Inserting(copy) => copy == snapshot
      case Tidying(copy) => copy == snapshot
      case RefreshingLocales(copy) => copy == snapshot
      case ClearingCache(copy) => copy == snapshot
      case _ => false
  }

  lemma {:induction false} FlowsAreDone(reg: Registry, s: State, i: nat, name: string, subjects: map<string, string>, db: Copy)
    requires Builds(s, i, name)
    ensures var t := Step(reg, s, Proceed(i, subjects, db));
            t.Some? && t.value.db == s.db && Carries(t.value, i, Snapshot(name, s.db, subjects)) && Undisturbed(t.value, i)
            && IsRunning(t.value, i)
  {
  }

  lemma {:induction false} KeepsCarrying(reg: Registry, s: State, e: Event, t: State, i: nat, snapshot: Snapshot)
    requires Inv(reg, s) && Step(reg, s, e) == Some(t) && !Disturbs(e) && IsRunning(s, i)
    requires Undisturbed(s, i) && Carries(s, i, snapshot)
    ensures Carries(t, i, snapshot)
  {
    hide Advance, PhaseOK, BuiltOnce;
    if e.Proceed? && e.i == i {
      NextCarries(reg, s, i, e.subjects, e.db, snapshot);
    } else if (e.Proceed? || e.Break? || e.Flow?) && e.i != i {
      OnlyOneRuns(s, i, e.i);
    }
  }

  lemma {:induction false} NextCarries(reg: Registry, s: State, i: nat, subjects: map<string, string>, db: Copy, snapshot: Snapshot)
    requires IsRunning(s, i) && Undisturbed(s, i) && Carries(s, i, snapshot)
    ensures Carries(Advance(reg, s, i, subjects, db), i, snapshot)
  {
    hide Requested, Cleared;
  }

  lemma {:induction false} RunKeepsCarrying(reg: Registry, s: State, events: seq<Event>, t: State, i: nat, snapshot: Snapshot)
    requires Inv(reg, s) && RunFrom(reg, s, events) == Some(t)
    requires IsRunning(s, i) && Undisturbed(s, i) && Carries(s, i, snapshot)
    requires forall k :: 0 <= k < |events| ==> !Disturbs(events[k])
    requires i < |t.calls| && !t.calls[i].status.Done?
    ensures Inv(reg, t) && IsRunning(t, i) && Undisturbed(t, i) && Carries(t, i, snapshot)
  {
    hide Step, Inv, Undisturbed, Disturbs, Carries;
    RunKeepsThePast(reg, s, events);
    if events != [] {
      var before := events[..|events| - 1];
      var u := RunFrom(reg, s, before).value;
      RunKeepsThePast(reg, s, before);
      StepKeepsThePast(reg, u, events[|events| - 1]);
      RunKeepsCarrying(reg, s, before, u, i, snapshot);
      StaysUndisturbed(reg, u, events[|events| - 1], t, i);
      KeepsCarrying(reg, u, events[|events| - 1], t, i, snapshot);
      StaysRunning(reg, u, events[|events| - 1], t, i);
    }
  }

  lemma {:induction false} StaysRunning(reg: Registry, s: State, e: Event, t: State, i: nat)
    requires Step(reg, s, e) == Some(t) && IsRunning(s, i) && i < |t.calls| && !t.calls[i].status.Done?
    ensures IsRunning(t, i)
  {
    hide NextStatus, Effect;
    if e.Proceed? {
      AdvanceCalls(reg, s, e.i, e.subjects, e.db);
      NextIsNotWaiting(reg, s, s.calls[e.i], e.subjects, e.db);
    }
  }

  /**
   * What the flows left in the database is what the restore that ran them leaves, and what is kept for
   * every replay: from the moment the flows are done until the call succeeds, nobody else writing.
   */
  lemma {:induction false} RestoreLeavesWhatWasBuilt(reg: Registry, s: State, i: nat, name: string, subjects: map<string, string>,
                                                     any: Copy, events: seq<Event>, t: State, last: Event, u: State)
    requires Inv(reg, s) && Builds(s, i, name)
    requires RunFrom(reg, s, [Proceed(i, subjects, any)] + events) == Some(t) && Step(reg, t, last) == Some(u)
    requires forall k :: 0 <= k < |events| ==> !Disturbs(events[k])
    requires i < |t.calls| && !t.calls[i].status.Done? && i < |u.calls| && u.calls[i].status == Done(true)
    ensures u.db == s.db && u.current == Some(name)
    ensures name in u.copies && u.copies[name] == Snapshot(name, s.db, subjects)
  {
    hide Step, Inv, RunFrom, Disturbs, Builds;
    var built := Snapshot(name, s.db, subjects);
    FlowsAreDone(reg, s, i, name, subjects, any);
    var b := Step(reg, s, Proceed(i, subjects, any)).value;
    StepKeepsInv(reg, s, Proceed(i, subjects, any));
    FirstOfRun(reg, s, Proceed(i, subjects, any), b, events, t);
    RunKeepsCarrying(reg, b, events, t, i, built);
    SuccessMeansRestored(reg, t, last, u, i);
    LastStepKeepsFlags(reg, t, last, u, i);
    SucceedsWithItsCopy(reg, t, last, u, i, built);
  }

  lemma {:induction false} FirstOfRun(reg: Registry, s: State, first: Event, b: State, rest: seq<Event>, t: State)
    requires Step(reg, s, first) == Some(b) && RunFrom(reg, s, [first] + rest) == Some(t)
    ensures RunFrom(reg, b, rest) == Some(t)
  {
    hide Step;
    NoEvents(reg, s);
    var one := RunStep(reg, s, [], s, first, b);
    RunSplits(reg, s, one, rest);
  }

  lemma {:induction false} SucceedsWithItsCopy(reg: Registry, s: State, e: Event, t: State, i: nat, snapshot: Snapshot)
    requires Inv(reg, s) && Step(reg, s, e) == Some(t) && i < |s.calls| && i < |t.calls|
    requires !s.calls[i].status.Done? && t.calls[i].status == Done(true) && Carries(s, i, snapshot)
    ensures t.current == Some(snapshot.name) && snapshot.name in t.copies && t.copies[snapshot.name] == snapshot
  {
    hide Step, Queued, BuiltOnce, PhaseOK, Advance;
    OnlyCompletionSucceeds(reg, s, e, t, i);
    CompletionChangesNothingElse(reg, s, e, i);
    ClearingKnows(reg, s, s.calls[i]);
  }

  /**
   * Over whole runs: a call that finds no copy of its scenario, and succeeds with no write of others
   * after its flows are done, leaves the database exactly as they left it, and keeps that for its copy.
   */
  lemma {:induction false} FirstRestoreLeavesWhatItsFlowsBuilt(reg: Registry, s: State, events: seq<Event>, t: State, last: Event,
                                                               u: State, i: nat, name: string) returns (k: nat)
    requires Inv(reg, s) && RunFrom(reg, s, events) == Some(t) && Step(reg, t, last) == Some(u)
    requires IsRunning(s, i) && s.calls[i].status.phase.Choosing? && name !in s.copies
    requires name == if s.calls[i].scenario.Some? then s.calls[i].scenario.value else reg.default
    requires i < |t.calls| && !t.calls[i].status.Done? && i < |u.calls| && u.calls[i].status == Done(true)
    ensures k < |events| && RunFrom(reg, s, events[..k]).Some?
    ensures Builds(RunFrom(reg, s, events[..k]).value, i, name) && events[k].Proceed? && events[k].i == i
    ensures (forall m :: k < m < |events| ==> !Disturbs(events[m])) ==>
              var built := RunFrom(reg, s, events[..k]).value.db;
              u.db == built && name in u.copies && u.copies[name] == Snapshot(name, built, events[k].subjects)
  {
    hide Step, Inv, RunFrom, Disturbs, Builds;
    OnlyCompletionSucceeds(reg, t, last, u, i);
    k := FirstRestoreBuilds(reg, s, events, t, i, name);
    if forall m :: k < m < |events| ==> !Disturbs(events[m]) {
      var a := RunFrom(reg, s, events[..k]).value;
      assert events[..k] + events[k..] == events;
      RunSplits(reg, s, events[..k], events[k..]);
      assert events[k..] == [Proceed(i, events[k].subjects, events[k].db)] + events[k + 1..];
      RestoreLeavesWhatWasBuilt(reg, a, i, name, events[k].subjects, events[k].db, events[k + 1..], t, last, u);
    }
  }

  lemma {:induction false} RunSplits(reg: Registry, s: State, first: seq<Event>, rest: seq<Event>)
    ensures RunFrom(reg, s, first + rest) ==
            match RunFrom(reg, s, first)
            case None => None
            case Some(t) => RunFrom(reg, t, rest)
  {
    hide Step;
    var all := first + rest;
    if rest == [] {
      assert all == first;
    } else {
      assert all[..|all| - 1] == first + rest[..|rest| - 1];
      RunSplits(reg, s, first, rest[..|rest| - 1]);
    }
  }

  /** And so does every later replay that nobody disturbs. */
  lemma {:induction false} ReplayLeavesWhatWasBuilt(reg: Registry, s: State, built: Snapshot, between: seq<Event>, w: State, j: nat,
                                                    events: seq<Event>, t: State, last: Event, u: State)
    requires Inv(reg, s) && built.name in s.copies && s.copies[built.name] == built
    requires RunFrom(reg, s, between) == Some(w) && j < |w.calls| && w.calls[j].status.Waiting?
    requires RunFrom(reg, w, events) == Some(t) && Step(reg, t, last) == Some(u)
    requires forall k :: 0 <= k < |events| ==> !Disturbs(events[k])
    requires j < |t.calls| && !t.calls[j].status.Done? && j < |u.calls| && u.calls[j].status == Done(true)
    requires (if t.calls[j].scenario.Some? then t.calls[j].scenario.value else reg.default) == built.name
    ensures u.db == built.database
  {
    hide Step, Inv, RunFrom, Disturbs;
    RunKeepsThePast(reg, s, between);
    RunKeepsThePast(reg, w, events);
    UndisturbedRestoreIsExact(reg, w, events, t, last, u, j);
    StepKeepsThePast(reg, t, last);
  }

  /** A call that finds no copy of its scenario can only succeed by building it. */
  lemma {:induction false} FirstRestoreBuilds(reg: Registry, s: State, events: seq<Event>, t: State, i: nat, name: string) returns (k: nat)
    requires Inv(reg, s) && RunFrom(reg, s, events) == Some(t)
    requires IsRunning(s, i) && s.calls[i].status.phase.Choosing?
    requires name == if s.calls[i].scenario.Some? then s.calls[i].scenario.value else reg.default
    requires name !in s.copies && i < |t.calls| && IsRunning(t, i) && t.calls[i].status.phase.ClearingCache?
    ensures k < |events| && events[k].Proceed? && events[k].i == i
    ensures RunFrom(reg, s, events[..k]).Some? && Inv(reg, RunFrom(reg, s, events[..k]).value)
    ensures Builds(RunFrom(reg, s, events[..k]).value, i, name)
  {
    hide Step, Inv, Builds;
    BuildingIsPassed(reg, s, events, t, i, name);
    k :| 0 <= k < |events| && PassesBuilding(reg, s, events, i, name, k);
    RunKeepsThePast(reg, s, events[..k]);
  }

  ghost predicate PassesBuilding(reg: Registry, s: State, events: seq<Event>, i: nat, name: string, k: nat)
    requires k < |events|
  {
    && events[k].Proceed? && events[k].i == i
    && RunFrom(reg, s, events[..k]).Some? && Builds(RunFrom(reg, s, events[..k]).value, i, name)
  }

  /** Before its flows the call has no copy in hand; once it has one, its flows have run. */
  ghost predicate NotYetBuilt(s: State, i: nat, name: string) {
    i < |s.calls| ==>
      match s.calls[i].status
      case Running(phase) =>
        (match phase
         case Choosing => name !in s.copies
         case Emptying(n) => n == name
         case Building(n) => n == name
         case _ => false)
      case Done(ok) => !ok
      case Waiting => false
  }

  lemma {:induction false} BuildingIsPassed(reg: Registry, s: State, events: seq<Event>, t: State, i: nat, name: string)
    requires Inv(reg, s) && RunFrom(reg, s, events) == Some(t)
    requires IsRunning(s, i) && s.calls[i].status.phase.Choosing? && name !in s.copies
    requires name == if s.calls[i].scenario.Some? then s.calls[i].scenario.value else reg.default
    ensures i < |t.calls| && t.calls[i].scenario == s.calls[i].scenario
    ensures NotYetBuilt(t, i, name) || exists k :: 0 <= k < |events| && PassesBuilding(reg, s, events, i, name, k)
  {
    hide Step, Inv, NotYetBuilt, Builds;
    if events == [] {
      ChoosingIsNotBuilt(s, i, name);
    } else {
      var m := |events| - 1;
      var u := RunFrom(reg, s, events[..m]).value;
      BuildingIsPassed(reg, s, events[..m], u, i, name);
      RunKeepsThePast(reg, s, events[..m]);
      StepKeepsScenario(reg, u, events[m], t, i);
      if k :| 0 <= k < m && PassesBuilding(reg, s, events[..m], i, name, k) {
        assert events[..m][..k] == events[..k];
        assert PassesBuilding(reg, s, events, i, name, k);
      } else {
        ComesToBuilding(reg, u, events[m], t, i, name);
        if !NotYetBuilt(t, i, name) {
          assert PassesBuilding(reg, s, events, i, name, m);
        }
      }
    }
  }

  lemma {:induction false} ChoosingIsNotBuilt(s: State, i: nat, name: string)
    requires IsRunning(s, i) && s.calls[i].status.phase.Choosing? && name !in s.copies
    ensures NotYetBuilt(s, i, name)
  {
  }

  lemma {:induction false} StepKeepsScenario(reg: Registry, s: State, e: Event, t: State, i: nat)
    requires Step(reg, s, e) == Some(t) && i < |s.calls|
    ensures i < |t.calls| && t.calls[i].scenario == s.calls[i].scenario
  {
    hide NextStatus, Effect;
    if e.Proceed? {
      AdvanceCalls(reg, s, e.i, e.subjects, e.db);
    }
  }

  lemma {:induction false} ComesToBuilding(reg: Registry, s: State, e: Event, t: State, i: nat, name: string)
    requires Inv(reg, s) && Step(reg, s, e) == Some(t) && i < |s.calls| && i < |t.calls| && NotYetBuilt(s, i, name)
    requires name == if s.calls[i].scenario.Some? then s.calls[i].scenario.value else reg.default
    ensures NotYetBuilt(t, i, name) || (e.Proceed? && e.i == i && Builds(s, i, name))
  {
    hide Advance, PhaseOK, BuiltOnce;
    if e.Proceed? && e.i == i {
      NextComesToBuilding(reg, s, i, e.subjects, e.db, name);
    } else if e.Proceed? {
      AdvanceCalls(reg, s, e.i, e.subjects, e.db);
      OnlyOneRuns(s, e.i, i);
    }
  }

  lemma {:induction false} NextComesToBuilding(reg: Registry, s: State, i: nat, subjects: map<string, string>, db: Copy, name: string)
    requires IsRunning(s, i) && NotYetBuilt(s, i, name)
    requires name == if s.calls[i].scenario.Some? then s.calls[i].scenario.value else reg.default
    ensures NotYetBuilt(Advance(reg, s, i, subjects, db), i, name) || Builds(s, i, name)
  {
    hide Cleared;
  }

  /** The step with which call `i` succeeds, and no write of others landed since its last emptying began. */
  ghost predicate Succeeds(reg: Registry, s: State, e: Event, t: State, i: nat) {
    && Step(reg, s, e) == Some(t) && i < |s.calls| && i < |t.calls|
    && !s.calls[i].status.Done? && t.calls[i].status == Done(true) && !t.dbTouched
  }

  /**
   * Two restores of one scenario leave the same database behind, whatever calls, failures and outside
   * writes come between them, as long as nobody else writes while either of them replays and no write of
   * a restore that failed lands then.
   */
  lemma {:induction false} ReplaysAreIdentical(reg: Registry, s: State, first: Event, t: State, i: nat, between: seq<Event>,
                                               u: State, second: Event, v: State, j: nat)
    requires Inv(reg, s) && Succeeds(reg, s, first, t, i)
    requires RunFrom(reg, t, between) == Some(u) && Succeeds(reg, u, second, v, j)
    requires var asked := if s.calls[i].scenario.Some? then s.calls[i].scenario.value else reg.default;
             asked == if u.calls[j].scenario.Some? then u.calls[j].scenario.value else reg.default
    ensures v.db == t.db
  {
    hide Step, Inv, RunFrom;
    StepKeepsInv(reg, s, first);
    SuccessMeansRestored(reg, s, first, t, i);
    RunKeepsThePast(reg, t, between);
    SuccessMeansRestored(reg, u, second, v, j);
    StepKeepsThePast(reg, u, second);
  }

  /**
   * Such a write can stay: the emptying may already have passed its collection, and the restore still
   * succeeds.
   */
  lemma {:induction false} AWriteDuringTheReplayCanStay(reg: Registry, s: State, i: nat, copy: Snapshot, left: Copy)
    requires IsRunning(s, i) && s.calls[i].status.phase == ReplayEmptying(copy)
    ensures var go := Proceed(i, map[], left);
            var end := RunFrom(reg, s, [Outside(left, [], 0.0), go, go, go, go, go]);
            end.Some? && end.value.calls[i].status == Done(true) && end.value.db == left
  {
    var go := Proceed(i, map[], left);
    hide Step, RunFrom;
    NoEvents(reg, s);
    var written := OutsideStep(reg, s, i, left);
    var events := RunStep(reg, s, [], s, Outside(left, [], 0.0), written);
    var inserting := DisturbedStep(reg, written, i, left, Inserting(copy));
    events := RunStep(reg, s, events, written, go, inserting);
    var tidying := DisturbedStep(reg, inserting, i, left, Tidying(copy));
    events := RunStep(reg, s, events, inserting, go, tidying);
    var refreshing := DisturbedStep(reg, tidying, i, left, RefreshingLocales(copy));
    events := RunStep(reg, s, events, tidying, go, refreshing);
    var clearing := DisturbedStep(reg, refreshing, i, left, ClearingCache(copy));
    events := RunStep(reg, s, events, refreshing, go, clearing);
    var settled := Settles(reg, clearing, i, left, left);
    events := RunStep(reg, s, events, clearing, go, settled);
    assert events == [Outside(left, [], 0.0), go, go, go, go, go];
  }

  /** The documents of both. */
  function Joined(a: Copy, b: Copy): Copy {
    map c | c in a :: a[c] + if c in b then b[c] else multiset{}
  }

  lemma {:induction false} JoiningNothing(a: Copy, b: Copy)
    ensures Joined(a, b) == a <==> forall c :: c in a && c in b ==> b[c] == multiset{}
  {
    if Joined(a, b) == a {
      forall c | c in a && c in b ensures b[c] == multiset{} {
        assert Joined(a, b)[c] == a[c];
        assert |a[c]| + |b[c]| == |a[c] + b[c]|;
      }
    } else {
      assert Joined(a, b).Keys == a.Keys;
      var c :| c in a && Joined(a, b)[c] != a[c];
      assert c in b;
    }
  }

  /**
   * The queue does not keep a failed restore's inserts out of the next one: the first restore breaks
   * while it inserts, the second replays its own copy, and the rows still under way stay beside it.
   */
  lemma {:induction false} RowsOfAFailedRestoreCanStay(reg: Registry, s: State, i: nat, j: nat, first: Snapshot, second: Snapshot,
                                                       written: Copy, late: Copy)
    requires IsRunning(s, i) && s.calls[i].status.phase == Inserting(first)
    requires j < |s.calls| && j != i && s.calls[j].status == Waiting && s.calls[j].after == Some(i)
    requires Requested(reg, s.calls[j]) == second.name && second.name in reg.names
    requires second.name in s.copies && s.copies[second.name] == second
    requires forall c :: c in late ==> c in first.database && late[c] <= first.database[c]
    ensures var mixed, go := Joined(second.database, late), Proceed(j, map[], map[]);
            var end := RunFrom(reg, s, [Break(i, written), Begin(j), go, go, go, Late(i, mixed, s.outbox, s.offset), go, go, go]);
            && end.Some? && end.value.calls[j].status == Done(true) && end.value.db == mixed
            && (mixed == second.database <==> forall c :: c in second.database && c in late ==> late[c] == multiset{})
  {
    hide Step, RunFrom;
    var mixed, go := Joined(second.database, late), Proceed(j, map[], map[]);
    JoiningNothing(second.database, late);
    var events, tidying := SecondReplays(reg, s, i, j, first, second, written);
    var disturbed := LandStep(reg, tidying, i, j, first, second, late);
    events := RunStep(reg, s, events, tidying, Late(i, mixed, s.outbox, s.offset), disturbed);
    var refreshing := AfterLanding(reg, disturbed, j, mixed, RefreshingLocales(second));
    events := RunStep(reg, s, events, disturbed, go, refreshing);
    var clearing := AfterLanding(reg, refreshing, j, mixed, ClearingCache(second));
    events := RunStep(reg, s, events, refreshing, go, clearing);
    var settled := Settles(reg, clearing, j, map[], mixed);
    events := RunStep(reg, s, events, clearing, go, settled);
    assert events == [Break(i, written), Begin(j), go, go, go, Late(i, mixed, s.outbox, s.offset), go, go, go];
  }

  /** Up to the moment the second restore has written its copy. */
  lemma {:induction false} SecondReplays(reg: Registry, s: State, i: nat, j: nat, first: Snapshot, second: Snapshot, written: Copy)
    returns (events: seq<Event>, t: State)
    requires IsRunning(s, i) && s.calls[i].status.phase == Inserting(first)
    requires j < |s.calls| && j != i && s.calls[j].status == Waiting && s.calls[j].after == Some(i)
    requires Requested(reg, s.calls[j]) == second.name && second.name in reg.names
    requires second.name in s.copies && s.copies[second.name] == second
    ensures var go := Proceed(j, map[], map[]); events == [Break(i, written), Begin(j), go, go, go]
    ensures RunFrom(reg, s, events) == Some(t)
    ensures Overlaps(reg, t, i, j, first, second) && t.calls[j].status.phase == Tidying(second) && t.db == second.database
    ensures t.outbox == s.outbox && t.offset == s.offset
  {
    hide Step, RunFrom;
    var go := Proceed(j, map[], map[]);
    NoEvents(reg, s);
    var broken := BreakAndBegin(reg, s, i, j, written);
    var middle := Step(reg, s, Break(i, written)).value;
    events := RunStep(reg, s, [], s, Break(i, written), middle);
    events := RunStep(reg, s, events, middle, Begin(j), broken);
    var emptying := QuietStep(reg, broken, i, j, first, second, ReplayEmptying(second));
    events := RunStep(reg, s, events, broken, go, emptying);
    var inserting := QuietStep(reg, emptying, i, j, first, second, Inserting(second));
    events := RunStep(reg, s, events, emptying, go, inserting);
    t := QuietStep(reg, inserting, i, j, first, second, Tidying(second));
    events := RunStep(reg, s, events, inserting, go, t);
  }

  /** The first restore has broken while inserting, the second one is on its way. */
  ghost predicate Overlaps(reg: Registry, s: State, i: nat, j: nat, first: Snapshot, second: Snapshot) {
    && IsBroken(s, i) && s.calls[i].broke == Some(Inserting(first)) && IsRunning(s, j)
    && Requested(reg, s.calls[j]) == second.name && second.name in reg.names
    && second.name in s.copies && s.copies[second.name] == second
  }

  lemma {:induction false} BreakAndBegin(reg: Registry, s: State, i: nat, j: nat, written: Copy) returns (t: State)
    requires IsRunning(s, i) && s.calls[i].status.phase.Inserting?
    requires j < |s.calls| && j != i && s.calls[j].status == Waiting && s.calls[j].after == Some(i)
    ensures Step(reg, s, Break(i, written)).Some?
    ensures Step(reg, Step(reg, s, Break(i, written)).value, Begin(j)) == Some(t)
    ensures IsBroken(t, i) && t.calls[i].broke == Some(s.calls[i].status.phase)
    ensures IsRunning(t, j) && t.calls[j].status.phase == Choosing && t.calls[j].scenario == s.calls[j].scenario
    ensures t.copies == s.copies && t.outbox == s.outbox && t.offset == s.offset
  {
    t := Step(reg, Step(reg, s, Break(i, written)).value, Begin(j)).value;
  }

  lemma {:induction false} QuietStep(reg: Registry, s: State, i: nat, j: nat, first: Snapshot, second: Snapshot, next: Phase)
    returns (t: State)
    requires Overlaps(reg, s, i, j, first, second)
    requires || (s.calls[j].status.phase == Choosing && next == ReplayEmptying(second))
             || (s.calls[j].status.phase == ReplayEmptying(second) && next == Inserting(second) && !s.dbTouched)
             || (s.calls[j].status.phase == Inserting(second) && next == Tidying(second) && !s.dbTouched && HoldsNothing(s.db))
    ensures Step(reg, s, Proceed(j, map[], map[])) == Some(t)
    ensures Overlaps(reg, t, i, j, first, second) && t.calls[j].status.phase == next && !t.dbTouched
    ensures next == Inserting(second) ==> HoldsNothing(t.db)
    ensures next == Tidying(second) ==> t.db == second.database
    ensures t.outbox == s.outbox && t.offset == s.offset
  {
    ClearedHoldsNothing(s.db);
    if HoldsNothing(s.db) {
      RowsIntoNothing(s.db, second.database);
    }
    hide Cleared, WithRows, HoldsNothing;
    t := Step(reg, s, Proceed(j, map[], map[])).value;
  }

  lemma {:induction false} LandStep(reg: Registry, s: State, i: nat, j: nat, first: Snapshot, second: Snapshot, late: Copy)
    returns (t: State)
    requires Overlaps(reg, s, i, j, first, second) && s.db == second.database && s.calls[j].status.phase == Tidying(second)
    requires forall c :: c in late ==> c in first.database && late[c] <= first.database[c]
    ensures Step(reg, s, Late(i, Joined(second.database, late), s.outbox, s.offset)) == Some(t)
    ensures t.db == Joined(second.database, late) && IsRunning(t, j) && t.calls[j].status.phase == Tidying(second)
  {
    t := Step(reg, s, Late(i, Joined(second.database, late), s.outbox, s.offset)).value;
  }

  lemma {:induction false} AfterLanding(reg: Registry, s: State, j: nat, db: Copy, next: Phase) returns (t: State)
    requires IsRunning(s, j) && s.db == db && (next.RefreshingLocales? || next.ClearingCache?)
    requires Precedes(s.calls[j].status.phase, next)
    ensures Step(reg, s, Proceed(j, map[], map[])) == Some(t)
    ensures t.db == db && IsRunning(t, j) && t.calls[j].status.phase == next
  {
    t := Step(reg, s, Proceed(j, map[], map[])).value;
  }

  lemma {:induction false} Settles(reg: Registry, s: State, j: nat, given: Copy, db: Copy) returns (t: State)
    requires IsRunning(s, j) && s.db == db && s.calls[j].status.phase.ClearingCache?
    ensures Step(reg, s, Proceed(j, map[], given)) == Some(t)
    ensures t.db == db && j < |t.calls| && t.calls[j].status == Done(true)
  {
    t := Step(reg, s, Proceed(j, map[], given)).value;
  }

  lemma {:induction false} NoEvents(reg: Registry, s: State)
    ensures RunFrom(reg, s, []) == Some(s)
  {
  }

  lemma {:induction false} OutsideStep(reg: Registry, s: State, i: nat, left: Copy) returns (t: State)
    requires IsRunning(s, i)
    ensures Step(reg, s, Outside(left, [], 0.0)) == Some(t)
    ensures t.dbTouched && t.db == left && IsRunning(t, i) && t.calls[i] == s.calls[i]
  {
    t := Step(reg, s, Outside(left, [], 0.0)).value;
  }

  /** The phase before `next` in a replay. */
  predicate Precedes(phase: Phase, next: Phase) {
    match next
    case Inserting(copy) => phase == ReplayEmptying(copy)
    case Tidying(copy) => phase == Inserting(copy)
    case RefreshingLocales(copy) => phase == Tidying(copy)
    case ClearingCache(copy) => phase == RefreshingLocales(copy)
    case _ => false
  }

  lemma {:induction false} DisturbedStep(reg: Registry, s: State, i: nat, left: Copy, next: Phase) returns (t: State)
    requires s.dbTouched && s.db == left && IsRunning(s, i) && Precedes(s.calls[i].status.phase, next)
    ensures Step(reg, s, Proceed(i, map[], left)) == Some(t)
    ensures t.dbTouched && t.db == left && IsRunning(t, i) && t.calls[i].status.phase == next
  {
    t := Step(reg, s, Proceed(i, map[], left)).value;
  }

  lemma {:induction false} RunStep(reg: Registry, start: State, events: seq<Event>, s: State, e: Event, t: State)
    returns (longer: seq<Event>)
    requires RunFrom(reg, start, events) == Some(s) && Step(reg, s, e) == Some(t)
    ensures longer == events + [e] && RunFrom(reg, start, longer) == Some(t)
  {
    longer := events + [e];
    assert longer[..|longer| - 1] == events;
  }
}
