/** Which schemas are read tolerantly: those behind a message of a channel bound to an AMQP server. */
module QueuePayloads {
  import opened Basics
  import opened JsonTree
  import opened ZodCompiler
  import ZodFaithful
  import opened ZodTolerance

  /** The `$ref`s of a channel's messages and of the servers it binds to; an absent one is the empty string. */
  datatype Channel = Channel(messages: seq<string>, servers: seq<string>)

  /** What the contract says of messages (the `$ref` of each payload) and of servers (each protocol). */
  datatype Contract = Contract(channels: seq<Channel>, messages: map<string, string>, servers: map<string, string>)

  predicate IsQueue(c: Contract, channel: Channel) {
    exists s :: s in channel.servers && s != "" && LastSegment(s) in c.servers && c.servers[LastSegment(s)] == "amqp"
  }

  /** The type name of a message's payload, or `unknown`. */
  function PayloadType(c: Contract, message: string): string {
    if message !in c.messages || c.messages[message] == "" then "unknown"
    else PascalCase(LastSegment(c.messages[message]))
  }

  function ChannelPayloadNames(c: Contract, refs: seq<string>): seq<string> {
    if refs == [] then []
    else
      var rest := ChannelPayloadNames(c, refs[1..]);
      if refs[0] == "" || PayloadType(c, LastSegment(refs[0])) == "unknown" then rest
      else [PayloadType(c, LastSegment(refs[0]))] + rest
  }

  /** The names the emitter looks a schema up under, to decide whether it is read tolerantly. */
  function QueuePayloadNames(c: Contract): set<string> {
    set channel, name | channel in c.channels && IsQueue(c, channel) && name in ChannelPayloadNames(c, channel.messages) :: name
  }

  // ---------------------------------------------------------------- which schemas end up in the set

  /** Some queue carries a message whose payload refers to this schema, by the schema's own name. */
  ghost predicate BacksAQueue(c: Contract, schema: string) {
    exists channel, ref :: channel in c.channels && IsQueue(c, channel) && Carries(c, channel, ref, schema)
  }

  predicate Carries(c: Contract, channel: Channel, ref: string, schema: string) {
    && ref in channel.messages && ref != ""
    && LastSegment(ref) in c.messages && c.messages[LastSegment(ref)] != ""
    && LastSegment(c.messages[LastSegment(ref)]) == schema
  }

  /** A channel is a queue exactly when it is bound to a declared server that speaks AMQP. */
  lemma {:induction false} QueueExactly(c: Contract, channel: Channel)
    requires forall s :: s in channel.servers && s != "" ==> exists name :: IsServerRef(s, name)
    ensures IsQueue(c, channel) <==>
            exists s, name :: s in channel.servers && IsServerRef(s, name) && name in c.servers && c.servers[name] == "amqp"
  {
    hide LastSegment;
    forall s, name | IsServerRef(s, name) ensures LastSegment(s) == name {
      assert s == "#/servers" + "/" + name;
      LastSegmentIs("#/servers", name);
    }
  }

  predicate IsServerRef(s: string, name: string) {
    '/' !in name && s == "#/servers/" + name
  }

  lemma {:induction false} CaseIsKept(value: string)
    ensures PascalFrom(PascalFrom(value, false), false) == PascalFrom(value, false)
    ensures PascalFrom(PascalFrom(value, true), true) == PascalFrom(value, true)
    ensures PascalFrom(PascalFrom(value, true), false) == PascalFrom(value, true)
  {
    if value != [] {
      CaseIsKept(value[1..]);
      if IsAlphanumeric(value[0]) {
        var rest := PascalFrom(value[1..], false);
        assert ([value[0]] + rest)[1..] == rest;
        assert ([UpperCase(value[0])] + rest)[1..] == rest;
      }
    }
  }

  /** Pascal case starts with no small letter, so no schema's type name reads `unknown`. */
  lemma {:induction false} PascalStart(value: string)
    ensures PascalCase(value) != "" ==> !('a' <= PascalCase(value)[0] <= 'z')
  {
    if value != [] && !IsAlphanumeric(value[0]) {
      PascalStart(value[1..]);
    }
  }

  lemma {:induction false} NamesOfChannel(c: Contract, channel: Channel, refs: seq<string>, name: string)
    ensures name in ChannelPayloadNames(c, refs) <==>
            exists ref :: ref in refs && ref != "" && LastSegment(ref) in c.messages && c.messages[LastSegment(ref)] != ""
                          && PascalCase(LastSegment(c.messages[LastSegment(ref)])) == name
  {
    hide PascalCase, LastSegment;
    if refs != [] {
      NamesOfChannel(c, channel, refs[1..], name);
      assert refs == [refs[0]] + refs[1..];
      if LastSegment(refs[0]) in c.messages {
        PascalStart(LastSegment(c.messages[LastSegment(refs[0])]));
      }
    }
  }

  lemma {:induction false} NamesAreTypeNames(c: Contract, name: string)
    ensures name in QueuePayloadNames(c) <==> exists schema :: BacksAQueue(c, schema) && PascalCase(schema) == name
  {
    hide PascalCase, LastSegment, IsQueue, ChannelPayloadNames;
    forall channel | channel in c.channels ensures
      name in ChannelPayloadNames(c, channel.messages) <==>
      exists ref :: ref in channel.messages && ref != "" && LastSegment(ref) in c.messages && c.messages[LastSegment(ref)] != ""
                    && PascalCase(LastSegment(c.messages[LastSegment(ref)])) == name
    {
      NamesOfChannel(c, channel, channel.messages, name);
    }
    if name in QueuePayloadNames(c) {
      var channel :| channel in c.channels && IsQueue(c, channel) && name in ChannelPayloadNames(c, channel.messages);
      var ref :| ref in channel.messages && ref != "" && LastSegment(ref) in c.messages && c.messages[LastSegment(ref)] != ""
                 && PascalCase(LastSegment(c.messages[LastSegment(ref)])) == name;
      assert Carries(c, channel, ref, LastSegment(c.messages[LastSegment(ref)]));
    }
    if schema :| BacksAQueue(c, schema) && PascalCase(schema) == name {
      var channel, ref :| channel in c.channels && IsQueue(c, channel) && Carries(c, channel, ref, schema);
      assert name in ChannelPayloadNames(c, channel.messages);
    }
  }

  /**
   * A schema behind a queue message is read tolerantly exactly when it is named in Pascal case: the set
   * holds type names, and the schema is looked up under its own.
   */
  lemma {:induction false} PayloadIsTolerantExactly(c: Contract, schema: string)
    requires BacksAQueue(c, schema)
    ensures schema in QueuePayloadNames(c) <==> PascalCase(schema) == schema
  {
    hide BacksAQueue, QueuePayloadNames;
    NamesAreTypeNames(c, schema);
    if other :| BacksAQueue(c, other) && PascalCase(other) == schema {
      CaseIsKept(other);
    }
  }

  /** Where that misses a payload: any name that starts with a small letter, such as `emailJob`. */
  lemma {:induction false} SmallLetterPayloadStaysStrict(c: Contract, schema: string)
    requires BacksAQueue(c, schema) && schema != "" && 'a' <= schema[0] <= 'z'
    ensures schema !in QueuePayloadNames(c)
  {
    hide BacksAQueue, QueuePayloadNames;
    PayloadIsTolerantExactly(c, schema);
    PascalStart(schema);
  }

  // ---------------------------------------------------------------- how far tolerance reaches

  /** The term, or one of the constants it leads to, refuses undeclared keys of some object. */
  predicate MeetsStrict(prog: seq<ZConst>, n: nat, z: Zod)
    requires n <= |prog|
    decreases n, z
  {
    match z
    case ZRef(ident) =>
      var i := FindConst(prog, n, ident);
      i.Some? && MeetsStrict(prog, i.value, prog[i.value].zod)
    case ZUnion(members) => exists i :: 0 <= i < |members| && MeetsStrict(prog, n, members[i])
    case ZDiscriminated(_, members) => exists i :: 0 <= i < |members| && MeetsStrict(prog, n, members[i])
    case ZArray(item) => MeetsStrict(prog, n, item)
    case ZRecord(value) => MeetsStrict(prog, n, value)
    case ZObject(shape, strict) => strict || exists k :: 0 <= k < |shape| && MeetsStrict(prog, n, shape[k].zod)
    case _ => false
  }

  /** The same module with every constant read tolerantly. */
  ghost predicate IsLoosened(prog: seq<ZConst>, loose: seq<ZConst>) {
    |loose| == |prog| && forall i :: 0 <= i < |prog| ==> loose[i] == ZConst(prog[i].ident, Loosen(prog[i].zod))
  }

  lemma {:induction false} LoosenTwice(z: Zod)
    ensures Loosen(Loosen(z)) == Loosen(z)
    decreases z
  {
    match z
    case ZUnion(members) =>
      forall i | 0 <= i < |members| ensures Loosen(Loosen(members[i])) == Loosen(members[i]) {
        LoosenTwice(members[i]);
      }
      assert LoosenAll(LoosenAll(members)) == LoosenAll(members);
    case ZDiscriminated(key, members) =>
      forall i | 0 <= i < |members| ensures Loosen(Loosen(members[i])) == Loosen(members[i]) {
        LoosenTwice(members[i]);
      }
      assert LoosenAll(LoosenAll(members)) == LoosenAll(members);
    case ZArray(item) => LoosenTwice(item);
    case ZRecord(value) => LoosenTwice(value);
    case ZObject(shape, strict) =>
      forall k | 0 <= k < |shape| ensures Loosen(Loosen(shape[k].zod)) == Loosen(shape[k].zod) {
        LoosenTwice(shape[k].zod);
      }
      assert LoosenShape(LoosenShape(shape)) == LoosenShape(shape);
    case _ =>
  }

  /** Treating every schema as a queue payload emits the loosened module. */
  lemma {:induction false} AllPayloadsLoosenTheModule(doc: Document, tolerant: set<string>, all: set<string>)
    requires Render(doc, tolerant).Success? && forall i :: 0 <= i < |doc| ==> doc[i].name in all
    ensures Render(doc, all).Success? && IsLoosened(Render(doc, tolerant).value, Render(doc, all).value)
  {
    hide Compile, Loosen, Render, ConstName;
    var prog := Render(doc, tolerant).value;
    forall i | 0 <= i < |doc| ensures Compile(doc[i].schema, true) == Success(Loosen(prog[i].zod)) {
      TolerantIsLoosened(doc[i].schema);
      if doc[i].name in tolerant {
        LoosenTwice(Compile(doc[i].schema, false).value);
      }
    }
    ZodFaithful.DocumentCompiles(doc, all);
  }

  lemma {:induction false} SameConst(prog: seq<ZConst>, loose: seq<ZConst>, n: nat, ident: string)
    requires IsLoosened(prog, loose) && n <= |prog|
    ensures FindConst(loose, n, ident) == FindConst(prog, n, ident)
  {
    hide Loosen;
    if n > 0 {
      SameConst(prog, loose, n - 1, ident);
    }
  }

  /** Where nothing is strict, there is nothing to loosen. */
  lemma {:induction false} NothingToLoosen(prog: seq<ZConst>, n: nat, z: Zod)
    requires n <= |prog| && !MeetsStrict(prog, n, z)
    ensures Loosen(z) == z
    decreases z
  {
    match z
    case ZUnion(members) =>
      forall i | 0 <= i < |members| ensures Loosen(members[i]) == members[i] {
        NothingToLoosen(prog, n, members[i]);
      }
      assert LoosenAll(members) == members;
    case ZDiscriminated(key, members) =>
      forall i | 0 <= i < |members| ensures Loosen(members[i]) == members[i] {
        NothingToLoosen(prog, n, members[i]);
      }
      assert LoosenAll(members) == members;
    case ZArray(item) => NothingToLoosen(prog, n, item);
    case ZRecord(value) => NothingToLoosen(prog, n, value);
    case ZObject(shape, strict) =>
      forall k | 0 <= k < |shape| ensures Loosen(shape[k].zod) == shape[k].zod {
        NothingToLoosen(prog, n, shape[k].zod);
      }
      assert LoosenShape(shape) == shape;
    case _ =>
  }

  lemma {:induction false} SameKeyValues(prog: seq<ZConst>, loose: seq<ZConst>, n: nat, z: Zod, key: string)
    requires IsLoosened(prog, loose) && n <= |prog|
    ensures KeyValues(loose, n, Loosen(z), key) == KeyValues(prog, n, z, key)
    decreases n, z
  {
    hide ShapeValues;
    if z.ZRef? {
      SameConst(prog, loose, n, z.ident);
      var i := FindConst(prog, n, z.ident);
      if i.Some? {
        SameKeyValues(prog, loose, i.value, prog[i.value].zod, key);
      }
    } else if z.ZObject? {
      LooseShapeValues(z.shape, key);
    }
  }

  /**
   * The value, taken by the fully tolerant reader, has an undeclared key at a strict object it meets: in
   * every member of a union that takes it, in the member its discriminator picks, in some item or field.
   */
  predicate MeetsUndeclared(prog: seq<ZConst>, loose: seq<ZConst>, n: nat, z: Zod, v: Json)
    requires n <= |prog| && n <= |loose|
    decreases n, z
  {
    match z
    case ZRef(ident) =>
      var i := FindConst(prog, n, ident);
      i.Some? && MeetsUndeclared(prog, loose, i.value, prog[i.value].zod, v)
    case ZUnion(members) =>
      && (exists i :: 0 <= i < |members| && ZodAccepts(loose, n, Loosen(members[i]), v))
      && forall i :: 0 <= i < |members| && ZodAccepts(loose, n, Loosen(members[i]), v) ==>
           MeetsUndeclared(prog, loose, n, members[i], v)
    case ZDiscriminated(key, members) =>
      exists i :: 0 <= i < |members| && Picks(prog, n, members, key, v, i) && MeetsUndeclared(prog, loose, n, members[i], v)
    case ZArray(item) =>
      v.Arr? && exists i :: 0 <= i < |v.items| && MeetsUndeclared(prog, loose, n, item, v.items[i])
    case ZRecord(value) =>
      v.Obj? && exists i :: 0 <= i < |v.fields| && MeetsUndeclared(prog, loose, n, value, v.fields[i].value)
    case ZObject(shape, strict) =>
      && v.Obj?
      && (|| (strict && exists i :: 0 <= i < |v.fields| && !Declares(shape, v.fields[i].name))
          || exists k, i :: 0 <= k < |shape| && 0 <= i < |v.fields| && v.fields[i].name == shape[k].name
                            && MeetsUndeclared(prog, loose, n, shape[k].zod, v.fields[i].value))
    case _ => false
  }

  /** What a payload's reader, with the strict constants it leads to, says of one value beside the tolerant one. */
  ghost predicate DiffersByStrictness(prog: seq<ZConst>, loose: seq<ZConst>, n: nat, z: Zod, v: Json)
    requires n <= |prog| && n <= |loose|
  {
    ZodAccepts(prog, n, z, v) <==> ZodAccepts(loose, n, Loosen(z), v) && !MeetsUndeclared(prog, loose, n, z, v)
  }

  /**
   * A payload's reader refuses a message that the fully tolerant one takes exactly when the message has
   * an undeclared key at a strict object it meets.
   */
  lemma {:induction false} ReadersDifferExactly(prog: seq<ZConst>, loose: seq<ZConst>, n: nat, z: Zod, v: Json)
    requires IsLoosened(prog, loose) && n <= |prog|
    ensures |loose| == |prog| && DiffersByStrictness(prog, loose, n, z, v)
    decreases n, z
  {
    hide Loosen, IsLoosened, DiffersByStrictness, ZodAccepts, MeetsUndeclared;
    LoosenedLength(prog, loose);
    match z
    case ZRef(ident) =>
      var i := FindConst(prog, n, ident);
      if i.Some? {
        ReadersDifferExactly(prog, loose, i.value, prog[i.value].zod, v);
      }
      ReferencesDiffer(prog, loose, n, ident, v);
    case ZUnion(members) =>
      forall i | 0 <= i < |members| ensures DiffersByStrictness(prog, loose, n, members[i], v) {
        ReadersDifferExactly(prog, loose, n, members[i], v);
      }
      UnionsDiffer(prog, loose, n, members, v);
    case ZDiscriminated(key, members) =>
      forall i | 0 <= i < |members| ensures DiffersByStrictness(prog, loose, n, members[i], v) {
        ReadersDifferExactly(prog, loose, n, members[i], v);
      }
      PicksDiffer(prog, loose, n, key, members, v);
    case ZArray(item) =>
      forall i | v.Arr? && 0 <= i < |v.items| ensures DiffersByStrictness(prog, loose, n, item, v.items[i]) {
        ReadersDifferExactly(prog, loose, n, item, v.items[i]);
      }
      ArraysDiffer(prog, loose, n, item, v);
    case ZRecord(value) =>
      forall i | v.Obj? && 0 <= i < |v.fields| ensures DiffersByStrictness(prog, loose, n, value, v.fields[i].value) {
        ReadersDifferExactly(prog, loose, n, value, v.fields[i].value);
      }
      RecordsDiffer(prog, loose, n, value, v);
    case ZObject(shape, strict) =>
      forall k, i | v.Obj? && 0 <= k < |shape| && 0 <= i < |v.fields|
        ensures DiffersByStrictness(prog, loose, n, shape[k].zod, v.fields[i].value)
      {
        ReadersDifferExactly(prog, loose, n, shape[k].zod, v.fields[i].value);
      }
      ObjectsDiffer(prog, loose, n, shape, strict, v);
    case _ => LeavesDiffer(prog, loose, n, z, v);
  }

  lemma {:induction false} ReferencesDiffer(prog: seq<ZConst>, loose: seq<ZConst>, n: nat, ident: string, v: Json)
    requires IsLoosened(prog, loose) && n <= |prog| == |loose|
    requires var i := FindConst(prog, n, ident); i.Some? ==> DiffersByStrictness(prog, loose, i.value, prog[i.value].zod, v)
    ensures DiffersByStrictness(prog, loose, n, ZRef(ident), v)
  {
    SameConst(prog, loose, n, ident);
  }

  lemma {:induction false} UnionAccepts(prog: seq<ZConst>, n: nat, members: seq<Zod>, v: Json)
    requires n <= |prog|
    ensures ZodAccepts(prog, n, ZUnion(members), v) <==> exists i :: 0 <= i < |members| && ZodAccepts(prog, n, members[i], v)
  {
  }

  lemma {:induction false} UnionMeets(prog: seq<ZConst>, loose: seq<ZConst>, n: nat, members: seq<Zod>, v: Json)
    requires n <= |prog| && n <= |loose|
    ensures MeetsUndeclared(prog, loose, n, ZUnion(members), v) <==>
            && (exists i :: 0 <= i < |members| && ZodAccepts(loose, n, Loosen(members[i]), v))
            && forall i :: 0 <= i < |members| && ZodAccepts(loose, n, Loosen(members[i]), v) ==>
                 MeetsUndeclared(prog, loose, n, members[i], v)
  {
    hide ZodAccepts, Loosen;
  }

  lemma {:induction false} LoosenUnion(members: seq<Zod>)
    ensures Loosen(ZUnion(members)) == ZUnion(LoosenAll(members))
  {
  }

  lemma {:induction false} UnionsDiffer(prog: seq<ZConst>, loose: seq<ZConst>, n: nat, members: seq<Zod>, v: Json)
    requires n <= |prog| == |loose| && forall i :: 0 <= i < |members| ==> DiffersByStrictness(prog, loose, n, members[i], v)
    ensures DiffersByStrictness(prog, loose, n, ZUnion(members), v)
  {
    hide ZodAccepts, MeetsUndeclared, Loosen;
    LoosenUnion(members);
    UnionAccepts(prog, n, members, v);
    UnionAccepts(loose, n, LoosenAll(members), v);
    UnionMeets(prog, loose, n, members, v);
    forall i | 0 <= i < |members|
      ensures ZodAccepts(prog, n, members[i], v) <==>
              ZodAccepts(loose, n, LoosenAll(members)[i], v) && !MeetsUndeclared(prog, loose, n, members[i], v)
    {
      assert DiffersByStrictness(prog, loose, n, members[i], v);
    }
  }

  lemma {:induction false} PicksDiffer(prog: seq<ZConst>, loose: seq<ZConst>, n: nat, key: string, members: seq<Zod>, v: Json)
    requires IsLoosened(prog, loose) && n <= |prog| == |loose|
    requires forall i :: 0 <= i < |members| ==> DiffersByStrictness(prog, loose, n, members[i], v)
    ensures DiffersByStrictness(prog, loose, n, ZDiscriminated(key, members), v)
  {
    hide HasKey, KeyValues, IsLoosened;
    var loosened := LoosenAll(members);
    forall i | 0 <= i < |members|
      ensures ZodAccepts(prog, n, members[i], v) <==>
              ZodAccepts(loose, n, loosened[i], v) && !MeetsUndeclared(prog, loose, n, members[i], v)
      ensures KeyValues(loose, n, loosened[i], key) == KeyValues(prog, n, members[i], key)
    {
      assert DiffersByStrictness(prog, loose, n, members[i], v);
      SameKeyValues(prog, loose, n, members[i], key);
    }
    forall i | 0 <= i < |members| ensures Picks(loose, n, loosened, key, v, i) <==> Picks(prog, n, members, key, v, i) {
    }
    forall i, j | 0 <= i < |members| && 0 <= j < |members| && Picks(prog, n, members, key, v, i) && Picks(prog, n, members, key, v, j)
      ensures i == j
    {
    }
    hide Picks;
    assert Loosen(ZDiscriminated(key, members)) == ZDiscriminated(key, loosened);
  }

  lemma {:induction false} ArraysDiffer(prog: seq<ZConst>, loose: seq<ZConst>, n: nat, item: Zod, v: Json)
    requires n <= |prog| == |loose|
    requires v.Arr? ==> forall i :: 0 <= i < |v.items| ==> DiffersByStrictness(prog, loose, n, item, v.items[i])
    ensures DiffersByStrictness(prog, loose, n, ZArray(item), v)
  {
    forall i | v.Arr? && 0 <= i < |v.items|
      ensures ZodAccepts(prog, n, item, v.items[i]) <==>
              ZodAccepts(loose, n, Loosen(item), v.items[i]) && !MeetsUndeclared(prog, loose, n, item, v.items[i])
    {
      assert DiffersByStrictness(prog, loose, n, item, v.items[i]);
    }
  }

  lemma {:induction false} RecordsDiffer(prog: seq<ZConst>, loose: seq<ZConst>, n: nat, value: Zod, v: Json)
    requires n <= |prog| == |loose|
    requires v.Obj? ==> forall i :: 0 <= i < |v.fields| ==> DiffersByStrictness(prog, loose, n, value, v.fields[i].value)
    ensures DiffersByStrictness(prog, loose, n, ZRecord(value), v)
  {
    forall i | v.Obj? && 0 <= i < |v.fields|
      ensures ZodAccepts(prog, n, value, v.fields[i].value) <==>
              && ZodAccepts(loose, n, Loosen(value), v.fields[i].value)
              && !MeetsUndeclared(prog, loose, n, value, v.fields[i].value)
    {
      assert DiffersByStrictness(prog, loose, n, value, v.fields[i].value);
    }
  }

  lemma {:induction false} ObjectsDiffer(prog: seq<ZConst>, loose: seq<ZConst>, n: nat, shape: seq<ZField>, strict: bool, v: Json)
    requires n <= |prog| == |loose|
    requires v.Obj? ==> forall k, i :: 0 <= k < |shape| && 0 <= i < |v.fields| ==>
               DiffersByStrictness(prog, loose, n, shape[k].zod, v.fields[i].value)
    ensures DiffersByStrictness(prog, loose, n, ZObject(shape, strict), v)
  {
    hide Present;
    var loosened := LoosenShape(shape);
    forall k, i | v.Obj? && 0 <= k < |shape| && 0 <= i < |v.fields|
      ensures ZodAccepts(prog, n, shape[k].zod, v.fields[i].value) <==>
              && ZodAccepts(loose, n, loosened[k].zod, v.fields[i].value)
              && !MeetsUndeclared(prog, loose, n, shape[k].zod, v.fields[i].value)
    {
      assert DiffersByStrictness(prog, loose, n, shape[k].zod, v.fields[i].value);
    }
    assert Loosen(ZObject(shape, strict)) == ZObject(loosened, false);
  }

  lemma {:induction false} LeavesDiffer(prog: seq<ZConst>, loose: seq<ZConst>, n: nat, z: Zod, v: Json)
    requires n <= |prog| && n <= |loose|
    requires !z.ZRef? && !z.ZUnion? && !z.ZDiscriminated? && !z.ZArray? && !z.ZRecord? && !z.ZObject?
    ensures DiffersByStrictness(prog, loose, n, z, v)
  {
  }

  /** Where nothing is strict, no value meets a strict object. */
  lemma {:induction false} NothingStrictIsMet(prog: seq<ZConst>, loose: seq<ZConst>, n: nat, z: Zod, v: Json)
    requires n <= |prog| && n <= |loose| && !MeetsStrict(prog, n, z)
    ensures !MeetsUndeclared(prog, loose, n, z, v)
    decreases n, z
  {
    hide ZodAccepts, Picks, Loosen;
    match z
    case ZRef(ident) =>
      var i := FindConst(prog, n, ident);
      if i.Some? {
        NothingStrictIsMet(prog, loose, i.value, prog[i.value].zod, v);
      }
    case ZUnion(members) =>
      forall i | 0 <= i < |members| ensures !MeetsUndeclared(prog, loose, n, members[i], v) {
        NothingStrictIsMet(prog, loose, n, members[i], v);
      }
    case ZDiscriminated(key, members) =>
      forall i | 0 <= i < |members| ensures !MeetsUndeclared(prog, loose, n, members[i], v) {
        NothingStrictIsMet(prog, loose, n, members[i], v);
      }
    case ZArray(item) =>
      forall w ensures !MeetsUndeclared(prog, loose, n, item, w) {
        NothingStrictIsMet(prog, loose, n, item, w);
      }
    case ZRecord(value) =>
      forall w ensures !MeetsUndeclared(prog, loose, n, value, w) {
        NothingStrictIsMet(prog, loose, n, value, w);
      }
    case ZObject(shape, strict) =>
      forall k, w | 0 <= k < |shape| ensures !MeetsUndeclared(prog, loose, n, shape[k].zod, w) {
        NothingStrictIsMet(prog, loose, n, shape[k].zod, w);
      }
    case _ =>
  }

  /**
   * A payload that meets no strict object is tolerant through and through: its reader accepts what it
   * would accept if every schema of the contract were a queue payload.
   */
  lemma {:induction false} TolerantThroughAndThrough(prog: seq<ZConst>, loose: seq<ZConst>, n: nat, z: Zod, v: Json)
    requires IsLoosened(prog, loose) && n <= |prog| && !MeetsStrict(prog, n, z)
    ensures |loose| == |prog| && (ZodAccepts(loose, n, z, v) <==> ZodAccepts(prog, n, z, v))
  {
    hide IsLoosened, ZodAccepts, MeetsUndeclared, MeetsStrict, Loosen;
    ReadersDifferExactly(prog, loose, n, z, v);
    NothingStrictIsMet(prog, loose, n, z, v);
    NothingToLoosen(prog, n, z);
  }

  lemma {:induction false} LoosenedLength(prog: seq<ZConst>, loose: seq<ZConst>)
    requires IsLoosened(prog, loose)
    ensures |loose| == |prog|
  {
  }

  // ---------------------------------------------------------------- which references keep a payload strict

  /**
   * The schema forbids undeclared keys of an object with properties, itself unless it is read
   * tolerantly, or in a schema it refers to, which is read in its own mode.
   */
  predicate Forbids(doc: Document, tolerant: set<string>, n: nat, s: Schema, lenient: bool)
    requires n <= |doc|
    decreases n, s
  {
    if s.ref != "" then
      var i := FindIdent(doc, n, ConstName(LastSegment(s.ref)));
      i.Some? && Forbids(doc, tolerant, i.value, doc[i.value].schema, doc[i.value].name in tolerant)
    else if s.values.Some? then false
    else if s.oneOf.Listed? then
      exists i :: 0 <= i < |s.oneOf.value| && Forbids(doc, tolerant, n, s.oneOf.value[i], lenient)
    else if s.typ == Some("array") then s.items.Items? && Forbids(doc, tolerant, n, s.items.value, lenient)
    else if s.typ == Some("object") then
      if s.properties.Properties? then
        || (!lenient && s.extra == Stated(false))
        || exists k :: 0 <= k < |s.properties.value| && Forbids(doc, tolerant, n, s.properties.value[k].schema, lenient)
      else s.extra.Typed? && Forbids(doc, tolerant, n, s.extra.schema, lenient)
    else false
  }

  lemma {:induction false} SameIdent(doc: Document, prog: seq<ZConst>, n: nat, ident: string)
    requires n <= |doc| == |prog| && forall i :: 0 <= i < |doc| ==> prog[i].ident == ConstName(doc[i].name)
    ensures FindConst(prog, n, ident) == FindIdent(doc, n, ident)
  {
    hide ConstName;
    if n > 0 {
      SameIdent(doc, prog, n - 1, ident);
    }
  }

  ghost predicate IsEmitted(doc: Document, tolerant: set<string>, prog: seq<ZConst>) {
    |prog| == |doc| && forall i :: 0 <= i < |doc| ==>
      prog[i].ident == ConstName(doc[i].name)
      && Compile(doc[i].schema, doc[i].name in tolerant) == Success(prog[i].zod)
  }

  /**
   * A schema's expression meets a strict object exactly when the schema forbids undeclared keys, in
   * place or behind a reference: inside a payload only a reference to a schema that is not itself read
   * tolerantly can do that.
   */
  lemma {:induction false} StrictExactlyWhereForbidden(doc: Document, tolerant: set<string>, prog: seq<ZConst>, n: nat,
                                                       s: Schema, lenient: bool, z: Zod)
    requires n <= |doc| && |prog| == |doc| && IsEmitted(doc, tolerant, prog) && Compile(s, lenient) == Success(z)
    ensures MeetsStrict(prog, n, z) <==> Forbids(doc, tolerant, n, s, lenient)
    decreases n, s
  {
    hide ConstName, LastSegment, CompileAll, CompileShape;
    if s.ref != "" {
      SameIdent(doc, prog, n, z.ident);
      var i := FindConst(prog, n, z.ident);
      if i.Some? {
        StrictExactlyWhereForbidden(doc, tolerant, prog, i.value, doc[i.value].schema, doc[i.value].name in tolerant,
                                    prog[i.value].zod);
      }
    } else if s.values.None? {
      if s.oneOf.Listed? {
        forall i | 0 <= i < |s.oneOf.value|
          ensures MeetsStrict(prog, n, CompileAll(s.oneOf.value, lenient).value[i]) <==>
                  Forbids(doc, tolerant, n, s.oneOf.value[i], lenient)
        {
          StrictExactlyWhereForbidden(doc, tolerant, prog, n, s.oneOf.value[i], lenient,
                                      CompileAll(s.oneOf.value, lenient).value[i]);
        }
      } else if s.typ == Some("array") && s.items.Items? {
        StrictExactlyWhereForbidden(doc, tolerant, prog, n, s.items.value, lenient, z.item);
      } else if s.typ == Some("object") && s.properties.Properties? {
        forall k | 0 <= k < |s.properties.value|
          ensures MeetsStrict(prog, n, z.shape[k].zod) <==>
                  Forbids(doc, tolerant, n, s.properties.value[k].schema, lenient)
        {
          StrictExactlyWhereForbidden(doc, tolerant, prog, n, s.properties.value[k].schema, lenient, z.shape[k].zod);
        }
      } else if s.typ == Some("object") && s.extra.Typed? {
        StrictExactlyWhereForbidden(doc, tolerant, prog, n, s.extra.schema, lenient, z.value);
      }
    }
  }

  // ---------------------------------------------------------------- a strict schema inside a payload

  function ObjectSchema(properties: seq<Property>, extra: Extra): Schema {
    Schema("", None, Absent, "", Absent, Absent, Some("object"), [], Properties(properties), NoItems, extra)
  }

  function ReferenceSchema(ref: string): Schema {
    Schema(ref, None, Absent, "", Absent, Absent, None, [], NoProperties, NoItems, Unstated)
  }

  /** A schema that forbids undeclared keys, and a payload with a property that refers to it. */
  function PayloadWithReference(inner: string, payload: string, ref: string, key: string): Document {
    [Property(inner, ObjectSchema([], Stated(false))),
     Property(payload, ObjectSchema([Property(key, ReferenceSchema(ref))], Unstated))]
  }

  function EmittedPair(inner: string, payload: string, key: string, strict: bool): seq<ZConst> {
    [ZConst(ConstName(inner), ZObject([], strict)),
     ZConst(ConstName(payload), ZObject([ZField(key, ZRef(ConstName(inner)), true)], false))]
  }

  /**
   * Whatever the names, and whether or not the payload itself is read tolerantly: a key the inner
   * schema does not declare is refused, unless the inner schema is a payload in its own name.
   */
  lemma {:induction false} ReferenceKeepsPayloadStrict(inner: string, payload: string, ref: string, key: string, extra: Field,
                                                       tolerant: set<string>)
    requires LastSegment(ref) == inner && ref != ""
    ensures var prog := EmittedPair(inner, payload, key, inner !in tolerant);
            && Render(PayloadWithReference(inner, payload, ref, key), tolerant) == Success(prog)
            && (ZodAccepts(prog, 1, prog[1].zod, Obj([Field(key, Obj([extra]))])) <==> inner in tolerant)
  {
    hide ConstName, LastSegment, Render;
    PairRenders(inner, payload, ref, key, tolerant);
    ReadsInner(EmittedPair(inner, payload, key, inner !in tolerant), key, extra);
  }

  lemma {:induction false} PairRenders(inner: string, payload: string, ref: string, key: string, tolerant: set<string>)
    requires LastSegment(ref) == inner && ref != ""
    ensures Render(PayloadWithReference(inner, payload, ref, key), tolerant) ==
            Success(EmittedPair(inner, payload, key, inner !in tolerant))
  {
    hide ConstName, LastSegment;
    var doc := PayloadWithReference(inner, payload, ref, key);
    OneReference(key, ref, payload in tolerant);
    assert Compile(doc[1].schema, payload in tolerant) == Success(ZObject([ZField(key, ZRef(ConstName(inner)), true)], false));
    assert CompileShape([], [], inner in tolerant) == Success([]);
    assert Compile(doc[0].schema, inner in tolerant) == Success(ZObject([], inner !in tolerant));
    hide Compile;
    assert doc[1..] == [doc[1]] && doc[1..][1..] == [];
    assert Render(doc[1..][1..], tolerant) == Success([]);
    var pair := EmittedPair(inner, payload, key, inner !in tolerant);
    assert [pair[1]] + [] == [pair[1]] && [pair[0]] + [pair[1]] == pair;
    assert Render(doc[1..], tolerant) == Success([pair[1]]);
  }

  lemma {:induction false} OneReference(key: string, ref: string, lenient: bool)
    requires ref != ""
    ensures CompileShape([Property(key, ReferenceSchema(ref))], [], lenient) ==
            Success([ZField(key, ZRef(ConstName(LastSegment(ref))), true)])
  {
    hide ConstName, LastSegment;
    var ps := [Property(key, ReferenceSchema(ref))];
    assert ps[1..] == [];
    var field := ZField(key, ZRef(ConstName(LastSegment(ref))), true);
    assert CompileShape(ps[1..], [], lenient) == Success([]);
    assert Compile(ps[0].schema, lenient) == Success(field.zod);
    assert [field] + [] == [field];
  }

  /** What the outer object makes of the one key of its inner one. */
  lemma {:induction false} ReadsInner(prog: seq<ZConst>, key: string, extra: Field)
    requires |prog| == 2 && prog[0].zod.ZObject? && prog[0].zod.shape == []
    requires prog[1].zod == ZObject([ZField(key, ZRef(prog[0].ident), true)], false)
    ensures ZodAccepts(prog, 1, prog[1].zod, Obj([Field(key, Obj([extra]))])) <==> !prog[0].zod.strict
  {
    var v := Obj([extra]);
    assert FindConst(prog, 1, prog[0].ident) == Some(0);
    assert ZodAccepts(prog, 0, prog[0].zod, v) <==> !prog[0].zod.strict by {
      assert v.fields[0] == extra;
    }
    assert ZodAccepts(prog, 1, ZRef(prog[0].ident), v) <==> !prog[0].zod.strict;
    var whole, shape := Obj([Field(key, v)]), prog[1].zod.shape;
    assert whole.fields[0].name == shape[0].name && whole.fields[0].value == v && shape[0].zod == ZRef(prog[0].ident);
  }
}
