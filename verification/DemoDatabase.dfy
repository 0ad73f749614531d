/** The demo profile's database copies and its clock. */
module DemoDatabase {
  import opened Basics

  datatype Document = Document(id: string, body: string)

  /** The documents of each registered collection. */
  type Copy = map<string, multiset<Document>>

  function Cleared(view: Copy): Copy {
    map c | c in view :: multiset{}
  }

  /** The rows added to what the collections hold. */
  function WithRows(view: Copy, rows: Copy): Copy {
    map c | c in rows :: rows[c] + if c in view then view[c] else multiset{}
  }

  lemma {:induction false} RowsAdded(before: Copy, after: Copy, rows: Copy)
    requires before.Keys == after.Keys == rows.Keys && forall c :: c in rows ==> after[c] == before[c] + rows[c]
    ensures after == WithRows(before, rows)
  {
    forall c | c in rows ensures after[c] == WithRows(before, rows)[c] {
      assert before[c] + rows[c] == rows[c] + before[c];
    }
  }

  /** The open connection: every collection the database holds, and the ones a model registered. */
  class Connection {
    const registered: seq<string>
    var stored: map<string, multiset<Document>>

    constructor (registered: seq<string>, stored: map<string, multiset<Document>>)
      ensures this.registered == registered && this.stored == stored
    {
      this.registered, this.stored := registered, stored;
    }

    function Contents(collection: string): multiset<Document>
      reads this
    {
      if collection in stored then stored[collection] else multiset{}
    }

    ghost function View(): Copy
      reads this
    {
      map c | c in registered :: Contents(c)
    }

    /** With nobody else writing: deletes every document of every registered collection, and no collection. */
    method EmptyDatabase()
      modifies this
      ensures View() == Cleared(old(View()))
      ensures forall c :: c !in registered ==> Contents(c) == old(Contents(c))
      ensures old(stored).Keys <= stored.Keys
    {
      for i := 0 to |registered|
        invariant forall c :: Contents(c) == if c in registered[..i] then multiset{} else old(Contents(c))
        invariant old(stored).Keys <= stored.Keys
      {
        assert registered[..i + 1] == registered[..i] + [registered[i]];
        stored := stored[registered[i] := multiset{}];
      }
      assert registered[..|registered|] == registered;
    }

    /** Reads every registered collection whole. */
    method CaptureDatabase() returns (copy: Copy)
      ensures copy == View()
    {
      copy := map[];
      for i := 0 to |registered|
        invariant copy == map c | c in registered[..i] :: Contents(c)
      {
        assert registered[..i + 1] == registered[..i] + [registered[i]];
        copy := copy[registered[i] := Contents(registered[i])];
      }
      assert registered[..|registered|] == registered;
    }

    /** Adds documents to one collection. */
    method InsertMany(collection: string, documents: multiset<Document>)
      modifies this
      ensures Contents(collection) == old(Contents(collection)) + documents
      ensures forall c :: c != collection ==> Contents(c) == old(Contents(c))
    {
      stored := stored[collection := Contents(collection) + documents];
    }

    /** Writes the copy's documents; empty collections are skipped. */
    method InsertCopy(copy: Copy, names: seq<string>)
      requires Distinct(names) && forall c :: c in names <==> c in copy
      modifies this
      ensures forall c :: Contents(c) == old(Contents(c)) + if c in copy then copy[c] else multiset{}
      ensures (forall c :: c in registered <==> c in copy) ==> View() == WithRows(old(View()), copy)
    {
      for i := 0 to |names|
        invariant forall c :: Contents(c) == old(Contents(c)) + if c in names[..i] then copy[c] else multiset{}
      {
        hide Contents;
        assert names[..i + 1] == names[..i] + [names[i]];
        assert names[i] !in names[..i];
        if copy[names[i]] != multiset{} {
          InsertMany(names[i], copy[names[i]]);
        }
      }
      assert names[..|names|] == names;
      if forall c :: c in registered <==> c in copy {
        RowsAdded(old(View()), View(), copy);
      }
    }

    /** Empties every registered collection and writes the copy back. */
    method RestoreDatabaseCopy(copy: Copy, names: seq<string>)
      requires forall c :: c in registered <==> c in copy
      requires Distinct(names) && forall c :: c in names <==> c in copy
      modifies this
      ensures View() == copy
      ensures forall c :: c !in registered ==> Contents(c) == old(Contents(c))
    {
      hide Contents;
      EmptyDatabase();
      forall c | c in registered ensures Contents(c) == multiset{} {
        assert Contents(c) == View()[c];
      }
      InsertCopy(copy, names);
      forall c | c in registered ensures Contents(c) == copy[c] {
      }
    }
  }

  /** What was captured comes back, whatever was written in between. */
  method CaptureThenRestore(db: Connection, between: map<string, multiset<Document>>, names: seq<string>)
    requires Distinct(names) && forall c :: c in names <==> c in db.registered
    modifies db
    ensures db.View() == old(db.View())
  {
    var copy := db.CaptureDatabase();
    db.stored := between;
    db.RestoreDatabaseCopy(copy, names);
  }

  // ---------------------------------------------------------------- an emptying among other writes

  /** One write that reaches the database: one of the emptying's own deletes, or an insert by anyone. */
  datatype Write = DeleteAll(collection: string) | Insert(collection: string, documents: multiset<Document>)

  /** What a collection holds once the writes have landed, in the order they land. */
  function After(before: multiset<Document>, writes: seq<Write>, collection: string): multiset<Document> {
    if writes == [] then before
    else
      var last := writes[|writes| - 1];
      var held := After(before, writes[..|writes| - 1], collection);
      if last.collection != collection then held
      else if last.DeleteAll? then multiset{} else held + last.documents
  }

  /** What is inserted into a collection by these writes. */
  function Inserted(writes: seq<Write>, collection: string): multiset<Document> {
    if writes == [] then multiset{}
    else
      var last := writes[|writes| - 1];
      Inserted(writes[..|writes| - 1], collection)
      + if last.Insert? && last.collection == collection then last.documents else multiset{}
  }

  /**
   * The deletes run side by side, and others may write in between: what a collection then holds is
   * exactly what was inserted after its own delete. It is empty exactly when nothing was.
   */
  lemma {:induction false} EmptyingKeepsLaterWrites(before: multiset<Document>, writes: seq<Write>, collection: string, k: nat)
    requires k < |writes| && writes[k] == DeleteAll(collection)
    requires forall j :: k < j < |writes| ==> writes[j] != DeleteAll(collection)
    ensures After(before, writes, collection) == Inserted(writes[k + 1..], collection)
  {
    if k == |writes| - 1 {
      assert writes[k + 1..] == [];
    } else {
      var init := writes[..|writes| - 1];
      EmptyingKeepsLaterWrites(before, init, collection, k);
      assert writes[k + 1..][..|writes[k + 1..]| - 1] == init[k + 1..];
    }
  }

  // ---------------------------------------------------------------- the clock

  datatype Number = Finite(value: real) | NotFinite

  datatype ClockEvent = Tick(elapsed: real) | Advance(ms: Number) | Reset

  /** A `Date` that runs at real speed and can be moved forward. */
  class DemoClock {
    var now: real
    var realNow: real

    constructor (start: real)
      ensures now == realNow == start
    {
      now, realNow := start, start;
    }

    function OffsetMs(): real
      reads this
    {
      if now > realNow then now - realNow else 0.0
    }

    /** Real time passes, and the fake runs along. */
    method Tick(elapsed: real)
      modifies this
      ensures now == old(now) + elapsed && realNow == old(realNow) + elapsed
    {
      now, realNow := now + elapsed, realNow + elapsed;
    }

    /** Moves forward, or refuses: never back and never to infinity. */
    method Advance(ms: Number) returns (moved: bool)
      modifies this`now
      ensures moved <==> ms.Finite? && ms.value >= 0.0
      ensures now == if moved then old(now) + ms.value else old(now)
    {
      moved := ms.Finite? && ms.value >= 0.0;
      if moved {
        now := now + ms.value;
      }
    }

    method Reset()
      modifies this`now
      ensures now == realNow && OffsetMs() == 0.0
    {
      now := realNow;
    }

    /** After any run of events the offset is the sum of the moves accepted since the last reset. */
    method Run(events: seq<ClockEvent>)
      requires now == realNow
      modifies this
      ensures OffsetMs() == MovedSinceReset(events)
    {
      for i := 0 to |events|
        invariant now - realNow == MovedSinceReset(events[..i]) >= 0.0
      {
        assert events[..i + 1][..i] == events[..i];
        match events[i] {
          case Tick(elapsed) => Tick(elapsed);
          case Advance(ms) => var _ := Advance(ms);
          case Reset => Reset();
        }
      }
      assert events[..|events|] == events;
    }
  }

  /** The accepted moves after the last reset, added up. */
  function MovedSinceReset(events: seq<ClockEvent>): (r: real)
    ensures r >= 0.0
  {
    if events == [] then 0.0
    else
      var before := MovedSinceReset(events[..|events| - 1]);
      match events[|events| - 1]
      case Tick(_) => before
      case Advance(ms) => if ms.Finite? && ms.value >= 0.0 then before + ms.value else before
      case Reset => 0.0
  }
}
