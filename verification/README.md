# Verified models of the repository's scheduling, contract and process logic

This project models, in Dafny, the parts of the repository whose correctness rests on an argument rather
than on wiring: graph walks over API contracts, a schema-to-validator compiler, a layered scheduler, an
index reconciler, a restore queue, a process supervisor, and a set of text and document transformations.
Each file stands for one component and says what the component promises for every input, every run or
every reachable state.

Code that changes things step by step is modelled by methods and classes that do the same steps and are
tied to a specification function; the theorems are lemmas about that function. Protocols driven by events
(the restore queue, the cluster primary, a run of scenario steps) are state machines over arbitrary
interleavings.

| file | component |
|---|---|
| `Waves.dfy` | scenario steps cut into dependency waves, and their run |
| `PruneUnused.dfy` | dead-component elimination in the bundled OpenAPI document |
| `SchemaOrder.dfy`, `SchemaReferences.dfy` | AsyncAPI schemas put in reference order, cycles included, and the references that takes |
| `ZodCompiler.dfy`, `ZodFaithful.dfy`, `ZodTolerance.dfy`, `ZodModule.dfy` | the JSON Schema to Zod compiler: its two sides, faithfulness, tolerant mode, and definition before use |
| `ZodRefusal.dfy` | which nodes the compiler refuses, and the names it exports |
| `ModuleOrders.dfy` | which sections have an order in which their module loads |
| `QueuePayloads.dfy` | which schemas are compiled tolerantly, and how far that reaches |
| `IndexSync.dfy` | MongoDB indexes reconciled with what the models declare |
| `DemoDatabase.dfy`, `RestoreQueue.dfy` | demo snapshots, the demo clock, and the queue that serialises restores |
| `Cluster.dfy` | the cluster primary and its crash policy |
| `RepoReferences.dfy` | the tail index that decides whether a cited path exists |
| `SectionOrder.dfy`, `RootAssembly.dfy` | section order, and the root document completed from the modules |
| `AsyncBundles.dfy` | the full and the public AsyncAPI bundle |
| `UnionExtensions.dfy`, `FillEnum.dfy` | unions and enums that modules extend |
| `RouteMatcher.dfy` | path templates compiled to regex literals, and the row a request meets |
| `MarkerBlock.dfy` | generated blocks spliced between markers |
| `NumericSeparators.dfy` | digit grouping in JSON text |
| `Backdate.dfy` | the age spread of demo orders, and their trails moved back |
| `Basics.dfy`, `JsonTree.dfy`, `JsonPaths.dfy`, `Text.dfy` | shared vocabulary |

## Where the code does less than its documentation says

Each of these is stated exactly, with inputs on the failing side.

- Pruning deletes a component that is referenced only by a pointer reaching deeper than `#/components/<kind>/<name>` (`PruneUnused.DeepPointerLosesItsComponent`); `PruneUnused.BreaksNoReference` says exactly when no reference breaks.
- The reordering of schemas does not read references to names outside word characters (`b-c`, `b.c`): a schema that uses one too early makes a module that does not load (`ZodModule.UnreadNameIsUsedTooEarly`). `ZodModule.ReorderedModuleLoadsExactly` says exactly when it loads, and `ModuleOrders.SomeOrderLoadsExactly` which sections have an order that does.
- A `oneOf` without a discriminator becomes a plain union, which takes a value that two members take (`ZodFaithful.PlainUnionExact`). Zod's `int` refuses whole numbers beyond the safe range (`ZodFaithful.IntegerExact`). `additionalProperties: false` on an object without properties is not enforced (`ZodFaithful.RecordAgrees`). `anyOf` and `allOf` beside a type are passed over (`ZodFaithful.CombinatorsAreIgnored`).
- A queue payload is read tolerantly only if its schema is named in Pascal case (`QueuePayloads.PayloadIsTolerantExactly`, `QueuePayloads.SmallLetterPayloadStaysStrict`), and only down to references to schemas that are not payloads themselves (`QueuePayloads.StrictExactlyWhereForbidden`, `QueuePayloads.ReferenceKeepsPayloadStrict`); `QueuePayloads.ReadersDifferExactly` says which messages that turns away.
- The duplicate scan before an index sync skips partial unique indexes and documents with an absent or null key field, so a build can still fail after the drops (`IndexSync.ScanAndBlindSpots`, `IndexSync.SyncExact`): two documents that lack the key defeat a unique index that is not sparse (`IndexSync.AbsentFieldsPassTheScan`), two explicit nulls a sparse one (`IndexSync.SparseMindsOnlyExplicitNulls`). `IndexSync.Database.ApplyIndexSync` and `IndexSync.HalfSyncedExact` say what is then left.
- What somebody else writes while a restore is emptying the database can stay, and the restore still succeeds (`RestoreQueue.AWriteDuringTheReplayCanStay`): a collection keeps exactly what was inserted after its own delete (`DemoDatabase.EmptyingKeepsLaterWrites`).
- The queue does not keep a failed restore out of the next one: its step rejects at the first failure while its other deletes and inserts are still under way, and what they write can stay beside the next copy (`RestoreQueue.RowsOfAFailedRestoreCanStay`). Nothing else overlaps (`RestoreQueue.OnlyBrokenRestoresOverlap`), and without such writes a restore is exact (`RestoreQueue.UndisturbedRestoreIsExact`).
- Two modules that declare one path take the root's entry from each other on every assembly (`RootAssembly.FixedPointExactlyWhenPathsDiffer`, `RootAssembly.SharedPathChangesHands`).
- A block whose end marker comes before the end of its start marker makes the page grow on every run (`MarkerBlock.SplicingTwiceIsOnce`, `MarkerBlock.GrowsOnEveryRun`).
- `x-enum-also` is left in the published contract exactly where an object names no source (`FillEnum.OnlyStraysAreLeft`).
- If the clock steps back, a crash already forgotten may count again; the verdict is then another exactly when one does (`Cluster.VerdictUnchangedExactly`, `Cluster.SteppedBackClockForgets`).
- The comment on the age spread says it ends yesterday; in doubles that holds exactly for fewer than 160 placed orders (`Backdate.SpreadRunsDown`, `Backdate.LastAgeOf160`).

## Model

| member | source | states |
|---|---|---|
| `Waves.WaveOrder` | scenarios/waves.ts:25-45 | the while loop over the remaining set yields the layered plan, or the steps that can never start |
| `Waves.StillWaiting` | scenarios/waves.ts:29-43 | a step is still waiting after k waves exactly when k other steps stand in a dependency line before it |
| `Waves.StuckStepsReachACycle` | scenarios/waves.ts:33-39 | the refusal names exactly the steps from which a cycle can be reached |
| `Waves.RefusesExactlyCycles` | scenarios/waves.ts:16-45 | a set is refused exactly when its own steps wait for one another in a circle |
| `Waves.PlanKeepsEveryStep` | scenarios/waves.ts:25-45 | every step is planned exactly once |
| `Waves.PlanIsLayering` | scenarios/waves.ts:25-45 | the plan is a valid layering: every dependency lies in an earlier wave |
| `Waves.WaveIsLongestChain` | scenarios/waves.ts:25-45 | the wave number of a step is the length of its longest dependency chain |
| `Waves.FewestWaves` | scenarios/waves.ts:16-45 | no valid layering whatever has fewer layers than the plan |
| `Waves.DanglingNamesAreInert` | scenarios/waves.ts:29-32 | names outside the set change nothing at all |
| `Waves.EveryRunKeepsInv` | scenarios/waves.ts:57-65 | over every interleaving of starts, answers and failures, what has started is exactly the waves up to the current one and results are kept wave by wave |
| `Waves.WhatComesNext` | scenarios/waves.ts:57-65 | what a run can do next, and when: start the wave, settle a started step, go on once all are fulfilled, fail once one is rejected; after the end only settle |
| `Waves.StartsOnlyAfterDependencies` | scenarios/waves.ts:57-65 | in every run a step starts at most once, and only after each of its dependencies has been fulfilled |
| `Waves.FinishedRunReturnsEverything` | scenarios/waves.ts:57-65 | a run that finishes started every step of the set and returns every answer in wave order |
| `PruneUnused.Findings.Collect` | scripts/contracts/prune-unused.ts:46-68 | the recursive walk adds to the three sets exactly what a tree mentions |
| `PruneUnused.FindsWhatStands` | scripts/contracts/prune-unused.ts:46-68 | a walk finds a pointer exactly where some path leads to an object with that `$ref`, a scheme exactly where one leads to a list under `security` with a requirement of that key, a tag exactly where one leads to a list under `tags` with that string |
| `PruneUnused.OpenApiDocument.CollectReachable` | scripts/contracts/prune-unused.ts:77-90 | the worklist terminates, and finds exactly the pointers reachable from outside `components`, and the schemes and tags reachable content names |
| `PruneUnused.ReachableIsLeast` | scripts/contracts/prune-unused.ts:77-90 | reachability is the least set that holds the outside references and is closed under following them |
| `PruneUnused.OpenApiDocument.Prune` | scripts/contracts/prune-unused.ts:95-109 | deleting in place leaves exactly the reachable components, the named security schemes and the used tags |
| `PruneUnused.ComponentStaysExactly` | scripts/contracts/prune-unused.ts:77-106 | a component stays exactly when its own pointer is mentioned outside `components` or in a component a reachable pointer finds; a security scheme exactly when a requirement names it |
| `PruneUnused.TagStaysExactly` | scripts/contracts/prune-unused.ts:108-108 | a tag stays exactly when it has a name some operation, or the content reached, files itself under |
| `PruneUnused.PointerFinds` | scripts/contracts/prune-unused.ts:81-87 | a pointer finds the component its first two segments name, whatever follows; with one segment it looks up `undefined` |
| `PruneUnused.BreaksNoReference` | scripts/contracts/prune-unused.ts:95-109 | every reachable reference still finds its component after pruning exactly when each lands in a component the rule keeps |
| `PruneUnused.PlainPointersAreKept` | scripts/contracts/prune-unused.ts:71-72 | with pointers of the form `#/components/<kind>/<name>` that condition always holds |
| `PruneUnused.DeepPointerLosesItsComponent` | scripts/contracts/prune-unused.ts:71-109 | for any kind and name, a component referenced only by a deeper pointer is deleted although it is reachable |
| `PruneUnused.ExpansionUnchanged` | scripts/contracts/prune-unused.ts:95-109 | expanding the references of any reachable content to any depth gives the same tree before and after |
| `PruneUnused.PruningPreservesMeaning` | scripts/contracts/prune-unused.ts:95-109 | the document outside `components` is untouched and expands to the same tree at every depth |
| `PruneUnused.ReachUnchanged` | scripts/contracts/prune-unused.ts:77-109 | pruning makes nothing unreachable, unnamed or unused |
| `PruneUnused.PruningIsIdempotent` | scripts/contracts/prune-unused.ts:95-109 | pruning a pruned document changes nothing |
| `SchemaOrder.SectionSchemas.PlaceSchema` | scripts/contracts/asyncapi-webhook-events.ts:247-259 | the recursive closure over the placed set and the ordered list performs one post-order visit |
| `SchemaOrder.SectionSchemas.OrderByReference` | scripts/contracts/asyncapi-webhook-events.ts:244-263 | the in-place reordering terminates on any reference graph and leaves the post-order of the section |
| `SchemaOrder.PlaceKeeps` | scripts/contracts/asyncapi-webhook-events.ts:247-259 | a visit keeps every ordered schema behind what it references, but for those the open path leads back to |
| `SchemaReferences.ReadsEveryReferenceInOrder` | scripts/contracts/asyncapi-webhook-events.ts:213-234 | the names read in a schema are exactly those standing under a `$ref` anywhere in it, behind the prefix and in word characters, in document order |
| `SchemaReferences.OnceKeepsTheFirst` | scripts/contracts/asyncapi-webhook-events.ts:222-234 | the set of them keeps each name where it is first read |
| `SchemaReferences.UsesExactly` | scripts/contracts/asyncapi-webhook-events.ts:213-263 | a schema uses another exactly when that one is in the section and stands under a `$ref` in it |
| `SchemaOrder.InOrderPermutes` | scripts/contracts/asyncapi-webhook-events.ts:244-263 | the result is a permutation of the schemas |
| `SchemaOrder.ReferencesComeFirst` | scripts/contracts/asyncapi-webhook-events.ts:213-263 | a schema stands after every schema the walk finds it referencing, by a name in word characters, unless that one leads back to it |
| `SchemaOrder.AcyclicDeclaresBeforeUse` | scripts/contracts/asyncapi-webhook-events.ts:213-263 | without cycles every schema is declared before every user the walk finds; `ZodModule.ReorderedModuleLoadsExactly` says what becomes of the references it does not read |
| `SchemaOrder.UnchangedExactlyWhenOrdered` | scripts/contracts/asyncapi-webhook-events.ts:213-263 | a section comes back as written exactly when every schema already follows what it references |
| `ZodFaithful.PlainUnionExact` | scripts/contracts/generate-asyncapi-types.ts:463-468 | a `oneOf` without discriminator and its `z.union` agree on a value exactly when no two members take it |
| `ZodFaithful.DiscriminatedAgrees` | scripts/contracts/generate-asyncapi-types.ts:463-468 | a discriminated `oneOf` and its `z.discriminatedUnion` accept the same values when the members carry different values of the key and the member the value names agrees |
| `ZodFaithful.ShapeAgrees` | scripts/contracts/generate-asyncapi-types.ts:498-521 | an object with properties and its `z.object` agree on presence, values and undeclared keys |
| `ZodFaithful.RecordAgrees` | scripts/contracts/generate-asyncapi-types.ts:487-496 | an object without properties agrees with its `z.record`, except that `additionalProperties: false` is enforced only on the empty object |
| `ZodFaithful.ArrayAgrees` | scripts/contracts/generate-asyncapi-types.ts:483-485 | an array and its `z.array` accept the same values, item by item |
| `ZodFaithful.IntegerExact` | scripts/contracts/generate-asyncapi-types.ts:477-479 | an integer node and Zod `int` agree on exactly the values that are not whole numbers outside the safe range |
| `ZodFaithful.IntegersExactly` | scripts/contracts/generate-asyncapi-types.ts:477-479 | Zod `int` takes exactly the whole numbers from -9007199254740991 to 9007199254740991 |
| `ZodFaithful.CombinatorsAreIgnored` | scripts/contracts/generate-asyncapi-types.ts:451-529 | `anyOf` and `allOf` beside what the emitter covers change nothing in the expression: it agrees exactly on the values the rest refuses or those keywords accept too |
| `ZodFaithful.NodeFaithful` | scripts/contracts/generate-asyncapi-types.ts:451-529 | for every covered node the emitted expression accepts exactly what the node accepts, of values with no unsafe whole number at an integer node |
| `ZodFaithful.CoveredCompiles` | scripts/contracts/generate-asyncapi-types.ts:451-529 | a covered node is never refused by the emitter |
| `ZodRefusal.RefusesExactlyUnsupported` | scripts/contracts/generate-asyncapi-types.ts:451-529 | a node is refused exactly when the emitter, going down members, items, properties and map values, meets one without `$ref`, `enum` or `oneOf` and with none of the six types; the error names such a node |
| `ZodRefusal.ModuleRefusedExactly` | scripts/contracts/generate-asyncapi-types.ts:541-548 | no module is emitted exactly when some schema meets such a node |
| `ZodRefusal.PascalOfWord` | scripts/contracts/generate-asyncapi-types.ts:107-114 | Pascal case raises the first letter of a word, by its place in the alphabet, and keeps the rest |
| `ZodRefusal.PascalOfPhrase` | scripts/contracts/generate-asyncapi-types.ts:107-114 | what stands between two words is dropped and each is written by itself |
| `ZodRefusal.ExportedNames` | scripts/contracts/generate-asyncapi-types.ts:451-548 | every exported constant is the Pascal case of its schema, letters and digits, followed by `Schema`, and references compile to the same constant |
| `ZodFaithful.RenderedModuleIsFaithful` | scripts/contracts/generate-asyncapi-types.ts:451-548 | the emitted module accepts, constant by constant, exactly the JSON values the contract schemas accept, but for unsafe whole numbers where an integer is asked for |
| `ZodTolerance.TolerantIsLoosened` | scripts/contracts/generate-asyncapi-types.ts:451-529 | tolerant compilation is strict compilation with strictness removed at every inline object; both refuse the same nodes |
| `ZodTolerance.DroppingKeepsAcceptance` | scripts/contracts/generate-asyncapi-types.ts:511-521 | dropping undeclared keys never turns an accepted value away |
| `ZodTolerance.TolerantIsStrictAfterDropping` | scripts/contracts/generate-asyncapi-types.ts:511-521 | the tolerant reader accepts a value exactly when the strict one accepts it after its undeclared keys are dropped, recursively |
| `ZodTolerance.QueuePayloadIsTolerant` | scripts/contracts/generate-asyncapi-types.ts:442-548 | the same for any schema compiled tolerantly, under any module |
| `QueuePayloads.QueueExactly` | scripts/contracts/generate-asyncapi-types.ts:202-237 | a channel is a queue exactly when it is bound to a declared server that speaks AMQP |
| `QueuePayloads.PayloadIsTolerantExactly` | scripts/contracts/generate-asyncapi-types.ts:144-237 | a schema behind a queue message is in the set the emitter reads tolerantly exactly when it is its own Pascal case |
| `QueuePayloads.SmallLetterPayloadStaysStrict` | scripts/contracts/generate-asyncapi-types.ts:414-548 | so a payload whose name starts with a small letter is compiled strictly |
| `QueuePayloads.AllPayloadsLoosenTheModule` | scripts/contracts/generate-asyncapi-types.ts:541-548 | compiling every schema tolerantly yields the loosened module |
| `QueuePayloads.ReadersDifferExactly` | scripts/contracts/generate-asyncapi-types.ts:451-548 | a payload reader refuses a message that the fully tolerant one takes exactly when the message has an undeclared key at a strict object it meets |
| `QueuePayloads.TolerantThroughAndThrough` | scripts/contracts/generate-asyncapi-types.ts:451-548 | a payload that meets no strict object, in place or behind a reference, reads a message as if every schema were tolerant |
| `QueuePayloads.StrictExactlyWhereForbidden` | scripts/contracts/generate-asyncapi-types.ts:451-548 | an expression meets a strict object exactly when its schema forbids undeclared keys in place or behind a reference to a schema outside the set |
| `QueuePayloads.ReferenceKeepsPayloadStrict` | scripts/contracts/generate-asyncapi-types.ts:451-548 | a payload that references a closed schema refuses an undeclared key inside it unless that schema is itself in the set |
| `ZodModule.CompiledIdents` | scripts/contracts/generate-asyncapi-types.ts:451-529 | an expression mentions exactly the constants of the references the emitter met |
| `ZodModule.VisitedIsWalked` | scripts/contracts/asyncapi-webhook-events.ts:213-234 | every local reference the emitter meets is one the ordering walk follows |
| `ZodModule.LoadsExactlyWhenDeclaredFirst` | scripts/contracts/generate-asyncapi-types.ts:541-548 | a module generated from any section loads without using a constant too early exactly when every constant an expression mentions is emitted before it |
| `ZodModule.ReorderedReadsBack` | scripts/contracts/asyncapi-webhook-events.ts:244-263 | the reordered section holds the same schemas, each as it was |
| `ZodModule.ReorderedModuleLoadsExactly` | scripts/contracts/asyncapi-webhook-events.ts:213-263 | the module generated from a reordered section loads exactly when each reference that the walk misses, or that closes a cycle, names a schema standing earlier |
| `ZodModule.ReorderedModuleLoads` | scripts/contracts/asyncapi-webhook-events.ts:244-263 | so it always loads when there are no cycles and every reference is to a schema named in word characters |
| `ZodModule.UnreadNameIsUsedTooEarly` | scripts/contracts/asyncapi-webhook-events.ts:213-263 | for any name with another character (`b-c`, `b.c`) a schema that refers to it from before is left before it, and the module does not load |
| `ModuleOrders.SomeOrderLoadsExactly` | scripts/contracts/asyncapi-webhook-events.ts:213-263 | a section has an order in which its generated module loads exactly when each reference names one of its schemas and no schemas mention one another in a circle |
| `ModuleOrders.ReorderedNeedsNoCircle` | scripts/contracts/asyncapi-webhook-events.ts:213-263 | so the reordering cannot help a section with such a circle or a reference to nothing |
| `ModuleOrders.AnotherOrderWouldLoad` | scripts/contracts/asyncapi-webhook-events.ts:213-263 | the section with a name the walk does not read loads the other way round |
| `ModuleOrders.PlainNameIsMovedForward` | scripts/contracts/asyncapi-webhook-events.ts:213-263 | for every name of letters, digits and underscores a schema standing after its user is moved before it, and the module loads |
| `ModuleOrders.FollowsExactly` | scripts/contracts/asyncapi-webhook-events.ts:213-263 | the walk follows exactly the references to a schema of the section by a name in word characters |
| `IndexSync.Classify` | scripts/db/index-sync.ts:264-299 | the loop over the names to drop sorts each into replaced, retired, undeclared or kept, and trims the keys to create |
| `IndexSync.NamesConserved` | scripts/db/index-sync.ts:281-298 | every name to drop ends in exactly one heap |
| `IndexSync.KeysConserved` | scripts/db/index-sync.ts:281-298 | each key to create is created or rebuilt, none lost or made up |
| `IndexSync.PairingIsMaximal` | scripts/db/index-sync.ts:281-298 | a name is paired with its own stored key, and no unpaired name could still be paired with a remaining key |
| `IndexSync.LeftoversMatch` | scripts/db/index-sync.ts:355-371 | after the drops, an index that still holds a declared key has the declared options: `createIndexes` never meets a conflicting one |
| `IndexSync.LeftExactly` | scripts/db/index-sync.ts:264-299 | a sync leaves exactly the primary key index, the indexes a declaration matches in key and options and, unless it prunes, those whose key nobody declares and whose name is not retired |
| `IndexSync.ListedExactly` | scripts/db/index-sync.ts:311-326 | the plan lists a collection exactly when there is something to create, rebuild, drop or keep |
| `IndexSync.CreateAllExact` | scripts/db/index-sync.ts:355-371 | building all declarations succeeds exactly when each can be built over what is left, and then nothing is lost |
| `IndexSync.ScanAndBlindSpots` | scripts/db/index-sync.ts:132-221 | a unique index, sparse or not, cannot be built exactly when the scan finds duplicates or the documents hide a violation from it: one under a partial filter, or two entries with a null or an absent field |
| `IndexSync.PartialMindsOnlyItsRows` | scripts/db/index-sync.ts:132-221 | a unique partial index is violated exactly by two documents under its filter on one entry |
| `IndexSync.SyncExact` | scripts/db/index-sync.ts:342-375 | after a clean scan a sync goes through exactly when names agree with keys among the kept indexes and no pending unique index, sparse or not, meets a violation the scan does not look at |
| `IndexSync.SyncedStoresAll` | scripts/db/index-sync.ts:342-375 | a sync that goes through stores every declaration, keeps all it left and adds nothing else |
| `IndexSync.SyncConverges` | scripts/db/index-sync.ts:342-375 | syncing a synced collection finds nothing to do |
| `IndexSync.OnlyDisownersDrop` | scripts/db/index-sync.ts:264-375 | over any sequence of non-pruning syncs by different releases, each over the documents it finds, an index disappears only at a release that retired its name or redeclares its key with other options |
| `IndexSync.BlockingExact` | scripts/db/index-sync.ts:198-222 | the declarations that block are exactly the pending scanned ones whose documents hold duplicates |
| `IndexSync.Database.PlanIndexSync` | scripts/db/index-sync.ts:311-326 | the planning loop lists every collection with something to do or report |
| `IndexSync.Database.FindBlockingDuplicates` | scripts/db/index-sync.ts:198-222 | the pre-flight lists exactly the pending unique keys the documents already violate |
| `IndexSync.Database.ApplyIndexSync` | scripts/db/index-sync.ts:342-375 | if the pre-flight refuses, no index was touched, and it refuses exactly when a pending unique key has duplicates; otherwise every collection is synced, or a build fails: then the models before it are synced, its own has its drops and every declaration that was not refused, and those after it are untouched. No other collection changes |
| `IndexSync.HalfSyncedExact` | scripts/db/index-sync.ts:359-371 | a collection with a refused build holds what the drops left and exactly the declarations that can be built over it |
| `IndexSync.SyncsExactlyWhenReady` | scripts/db/index-sync.ts:342-375 | past a clean pre-flight a collection syncs exactly when it is ready |
| `IndexSync.SecondPlanIsQuiet` | scripts/db/index-sync.ts:342-375 | a database synced throughout holds every declared index and plans no further change |
| `IndexSync.AbsentFieldsPassTheScan` | scripts/db/index-sync.ts:154-180 | under a unique index that is not sparse, two documents that both lack the key pass the scan and still defeat the build |
| `IndexSync.SparseMindsOnlyExplicitNulls` | scripts/db/index-sync.ts:138-180 | a unique sparse index on one field, as `products_sku`, takes any number of documents that lack it: past a clean scan it is built exactly when no two documents have an explicit null there |
| `DemoDatabase.Connection.EmptyDatabase` | scenarios/support/database-snapshot.ts:28-33 | with nobody else writing, every registered collection is emptied, no other is touched and none is dropped |
| `DemoDatabase.EmptyingKeepsLaterWrites` | scenarios/support/database-snapshot.ts:28-33 | with others writing in between, each collection is left with exactly what was inserted after its own delete |
| `DemoDatabase.Connection.CaptureDatabase` | scenarios/support/database-snapshot.ts:64-73 | the copy is the whole content of every registered collection |
| `DemoDatabase.Connection.RestoreDatabaseCopy` | scenarios/support/database-snapshot.ts:85-96 | the registered collections hold exactly the copy again |
| `DemoDatabase.CaptureThenRestore` | scenarios/support/database-snapshot.ts:64-96 | what was captured comes back, whatever was written in between |
| `DemoDatabase.DemoClock.Advance` | scenarios/support/demo-clock.ts:73-87 | the clock moves forward by the amount asked, or refuses a negative or infinite one |
| `DemoDatabase.DemoClock.Run` | scenarios/support/demo-clock.ts:64-87 | after any sequence of ticks, moves and resets the offset is the sum of the moves accepted since the last reset |
| `RestoreQueue.StepKeepsInv` | scenarios/support/demo.ts:91-162 | every step of the restore protocol keeps its invariant |
| `RestoreQueue.EveryRunIsSound` | scenarios/support/demo.ts:91-162 | every state reachable by any interleaving of calls, completions, failures, late writes of failed calls and outside writes satisfies the invariant |
| `RestoreQueue.RestoresRunOneAtATimeInOrder` | scenarios/support/demo.ts:155-162 | at most one call is in progress, and calls run in the order they were made |
| `RestoreQueue.OnlyBrokenRestoresOverlap` | scenarios/support/demo.ts:127-162 | beside the rest of the application only the call in progress writes, and calls before it that failed with work under way |
| `RestoreQueue.LandsExactly` | scenarios/support/database-snapshot.ts:28-96 | of a failed restore there can still land any of the deletes of its emptying, any rows of the copy it was inserting, anything of its flows, and nothing else |
| `RestoreQueue.NothingWedgesTheQueue` | scenarios/support/demo.ts:155-162 | the call at the head of the queue can always proceed, however the ones before it ended |
| `RestoreQueue.EachScenarioIsBuiltOnce` | scenarios/support/demo.ts:91-118 | no scenario is built to completion twice, and the current scenario is a built one |
| `RestoreQueue.RunKeepsThePast` | scenarios/support/demo.ts:66-118 | a kept copy and a settled outcome never change again |
| `RestoreQueue.OutcomesAreOwn` | scenarios/support/demo.ts:155-162 | only the steps of a call itself move its outcome |
| `RestoreQueue.UnknownScenarioOnlyFails` | scenarios/support/demo.ts:91-100 | an unknown scenario fails its own call and touches nothing else |
| `RestoreQueue.SuccessMeansRestored` | scenarios/support/demo.ts:127-144 | when a restore succeeds its scenario is current; the database is its copy unless somebody else, or a restore that had failed, wrote since the emptying began, and the outbox is empty and the clock at real time unless they wrote since those were cleared |
| `RestoreQueue.UndisturbedRestoreIsExact` | scenarios/support/demo.ts:127-162 | over whole runs: a restore that waits in the queue and then succeeds with no such write in between leaves exactly its copy, an empty outbox and real time, whatever calls and failures came before its turn |
| `RestoreQueue.FlowsBeginOnNothing` | scenarios/support/demo.ts:91-107 | the flows of a first restore begin on an empty database, unless others wrote while it was emptied |
| `RestoreQueue.FirstRestoreLeavesWhatItsFlowsBuilt` | scenarios/support/demo.ts:91-144 | over whole runs: a call that finds no copy of its scenario can only succeed by building it, and if nobody else writes after its flows are done it leaves, and keeps for its copy, exactly what they built |
| `RestoreQueue.ReplayLeavesWhatWasBuilt` | scenarios/support/demo.ts:66-144 | so does every later replay that nobody disturbs |
| `RestoreQueue.ReplaysAreIdentical` | scenarios/support/demo.ts:66-144 | two successful restores of one scenario leave the same database behind, whatever calls, failures and outside writes come between, if nobody else writes while either replays and no write of a failed restore lands then |
| `RestoreQueue.AWriteDuringTheReplayCanStay` | scenarios/support/demo.ts:127-144 | a write that lands while the replay empties can stay, and the restore still succeeds |
| `RestoreQueue.RowsOfAFailedRestoreCanStay` | scenarios/support/database-snapshot.ts:82-96 | a restore that breaks while inserting leaves rows under way; the next restore succeeds and they stay beside its copy, which they change exactly when there are any |
| `Cluster.Primary.Supervise` | src/cluster.ts:41-119 | starting the primary forks exactly the workers asked for |
| `Cluster.WorkerTarget` | src/infrastructure/runtime/cluster-policy.ts:18-19 | at least one worker: as many as requested, or one per CPU when none is requested |
| `Cluster.Primary.HandleTimer` | src/cluster.ts:72-75 | a respawn timer that fires forgets itself and forks, unless shutdown has begun |
| `Cluster.Primary.HandleForceTimer` | src/cluster.ts:105-113 | the forced shutdown records a failure |
| `Cluster.Primary.HandleExit` | src/cluster.ts:121-170 | the exit handler performs the exit step: settle, retire, respawn or give up |
| `Cluster.Primary.StartPrimaryShutdown` | src/cluster.ts:92-115 | shutdown happens once: it clears the respawn timers and signals the workers then listed |
| `Cluster.StepKeepsInv` | src/cluster.ts:41-174 | every event keeps the accounts of workers, timers, broadcasts and exit code in order, for any crash rule |
| `Cluster.EveryRunIsSound` | src/cluster.ts:41-174 | so does every sequence of events from the start |
| `Cluster.NoWorkerIsLost` | src/cluster.ts:62-170 | before shutdown running workers, pending respawns and workers retired for good add up to the target; SIGTERM is broadcast at most once |
| `Cluster.EveryExitIsAnswered` | src/cluster.ts:80-169 | before shutdown a crash is judged, recorded and answered by one respawn timer, or by giving up with exit code 1; an exit after a disconnect, with code 0 or by SIGTERM or SIGINT only retires the worker |
| `Cluster.EventsHappenExactly` | src/cluster.ts:62-140 | what can happen when; a pending respawn timer fires into exactly one new worker |
| `Cluster.StepAfterShutdown` | src/cluster.ts:92-140 | exit code 0 is set only when no worker is left and no failure was recorded |
| `Cluster.LastExitSettlesTheCode` | src/cluster.ts:121-140 | during shutdown the exit that leaves no worker behind sets code 0 unless a failure was recorded, and any other exit only takes its worker off the list |
| `Cluster.ShutdownIsFinal` | src/cluster.ts:92-140 | after shutdown starts nothing is forked, no timer is pending, workers only leave, and a recorded failure is never replaced |
| `Cluster.VerdictUnchangedExactly` | src/infrastructure/runtime/cluster-policy.ts:50-63 | the verdict on the history pruned at every crash is the verdict on the full one exactly when each crash now inside the window was inside it at every crash in between |
| `Cluster.KeptIsEnough` | src/infrastructure/runtime/cluster-policy.ts:50-63 | so it always is with a clock that does not step back |
| `Cluster.SteppedBackClockForgets` | src/infrastructure/runtime/cluster-policy.ts:50-63 | for every limit of at least two, a burst of crashes, one more just past the window and a clock stepped back make the primary respawn where the full history says to give up |
| `Cluster.GivesUpExactlyOnCrashLoop` | src/infrastructure/runtime/cluster-policy.ts:50-56 | the primary gives up exactly when the crash `maxCrashes` places earlier lies inside the window |
| `Cluster.BackoffDoubles` | src/infrastructure/runtime/cluster-policy.ts:58-62 | each further crash in the window doubles the wait, up to the ceiling |
| `Cluster.BackoffStartsAtTheBase` | src/infrastructure/runtime/cluster-policy.ts:50-63 | a lone crash waits for the base, never more than the ceiling |
| `Cluster.CrashesAreRateLimited` | src/cluster.ts:142-169 | over every run the kept history is the one pruned at each crash, and until shutdown, with a clock that does not step back, no window ever held more crashes than the limit |
| `RepoReferences.TrackedTargets` | scripts/docs/repo-references.ts:107-137 | the nested loops put a token in `targets` exactly when `/token/` occurs in `/file/` for a tracked file outside the mirror, and a name in `roots` exactly when it is the first segment of one |
| `RepoReferences.TrackedExactly` | scripts/docs/repo-references.ts:107-117 | of the listed lines exactly the non-empty ones outside `.2brain/` are tracked |
| `RepoReferences.AddTails` | scripts/docs/repo-references.ts:122-126 | exactly the tails of a path are added |
| `RepoReferences.SliceNames` | scripts/docs/repo-references.ts:107-137 | a token is a run of consecutive segments of a path exactly when it occurs in it between slashes |
| `RepoReferences.OccurrenceIsSlice` | scripts/docs/repo-references.ts:122-134 | an occurrence between slashes always falls on whole segments |
| `RepoReferences.CheckCitation` | scripts/docs/repo-references.ts:160-161 | a citation resolves exactly when one of the listed spellings names a run of segments of a tracked path |
| `RepoReferences.ResolvesExactly` | scripts/docs/repo-references.ts:145-161 | a token resolves exactly when it is a target itself or with one of ten endings |
| `RepoReferences.DirectoriesResolve` | scripts/docs/repo-references.ts:128-134 | if a path is indexed, so are its directories and its tails |
| `SectionOrder.BundlesEverySectionOnce` | scripts/contracts/section-order.ts:18-25 | every section on disk appears once exactly when the preference names no existing one twice; the rest follow alphabetically |
| `SectionOrder.BeforeIsAlphabetical` | scripts/contracts/section-order.ts:18-25 | the order of the rest is by the first character in which two names differ |
| `SectionOrder.DeletingMovesNobody` | scripts/contracts/section-order.ts:18-25 | deleting modules leaves every other section in its order |
| `RootAssembly.EscapingIsReversible` | scripts/contracts/root-assembly.ts:37-38 | decoding `~1` then `~0` (section 4 of RFC 6901) undoes the escape, which is therefore injective and free of slashes |
| `RootAssembly.EscapeOf` | scripts/contracts/root-assembly.ts:37-38 | escaping goes character by character, `~` as `~0` and `/` as `~1` |
| `RootAssembly.PathRefsAreInjective` | scripts/contracts/root-assembly.ts:41-42 | two path refs are equal exactly when module and path are |
| `RootAssembly.PathRefsAreRecognised` | scripts/contracts/root-assembly.ts:34-42 | every path ref matches the pattern the pruning looks for |
| `RootAssembly.PathRefsExactly` | scripts/contracts/root-assembly.ts:33-42 | a ref is taken for a path ref exactly when it is a folder name between the two fixed parts, then at least one character on one line |
| `RootAssembly.RootDocument.PruneStaleReferences` | scripts/contracts/root-assembly.ts:55-73 | deleting entry by entry leaves exactly the entries that are not stale, and returns the refs kept |
| `RootAssembly.RootDocument.AppendMissingPaths` | scripts/contracts/root-assembly.ts:76-87 | every declared path whose ref was not kept is set, in order |
| `RootAssembly.RootDocument.Assemble` | scripts/contracts/root-assembly.ts:128-140 | a root without `paths` is refused and unchanged; otherwise paths and tags are the assembled ones |
| `RootAssembly.ExactlyTheDeclaredPaths` | scripts/contracts/root-assembly.ts:55-87 | the module entries afterwards are exactly the declared paths |
| `RootAssembly.RootOwnedStays` | scripts/contracts/root-assembly.ts:55-87 | a path item the root owns stays exactly when no module claims its path, and none appears |
| `RootAssembly.SurvivorsThenNewcomers` | scripts/contracts/root-assembly.ts:55-87 | survivors keep their order and new entries follow in fragment order |
| `RootAssembly.FixedPointExactlyWhenPathsDiffer` | scripts/contracts/root-assembly.ts:55-87 | assembling its own output changes nothing exactly when no two modules declare one path |
| `RootAssembly.SharedPathChangesHands` | scripts/contracts/root-assembly.ts:55-87 | whoever of two modules declaring one path holds its entry loses it to the other on the next run |
| `RootAssembly.WantedIsSound` | scripts/contracts/root-assembly.ts:151-168 | the entries read from distinct well-named modules are distinct and each names the path its ref points at |
| `RootAssembly.DeletingAModuleRemovesOnlyItsEntries` | scripts/contracts/root-assembly.ts:128-168 | deleting a module folder removes exactly the entries that point into it |
| `RootAssembly.TagsAreListedOnce` | scripts/contracts/root-assembly.ts:94-114 | every declared or used tag is listed, each new one once and as its first declarer describes it; a second pass adds nothing |
| `RootAssembly.FirstNamedExactly` | scripts/contracts/root-assembly.ts:94-114 | a new tag is described as the first declared tag of that name, and is bare where none has it |
| `AsyncBundles.Target.MergeInto` | scripts/contracts/asyncapi-bundles.ts:158-184 | the merge pushes entry by entry and stops on a key already claimed |
| `AsyncBundles.Target.Merge` | scripts/contracts/asyncapi-bundles.ts:187-190 | all five maps of one document are merged, or the merge is refused |
| `AsyncBundles.Bundler.Compile` | scripts/contracts/asyncapi-bundles.ts:201-243 | both scopes compile to the merge of their sections, and a cached answer is the same as a computed one |
| `AsyncBundles.PushesExactlyWhenDistinct` | scripts/contracts/asyncapi-bundles.ts:173-183 | a merge throws exactly on a key claimed twice, and otherwise appends |
| `AsyncBundles.BuildsExactlyWhenNoKeyIsClaimedTwice` | scripts/contracts/asyncapi-bundles.ts:158-243 | a bundle builds exactly when every section loads and no key is claimed twice on any path; nothing is then lost, overwritten or moved |
| `AsyncBundles.PublicBundleIsASubdocument` | scripts/contracts/asyncapi-bundles.ts:90-93 | if the full bundle builds so does the public one, and each public map is an in-order part of the full one with identical values |
| `AsyncBundles.ScopeHolds` | scripts/contracts/asyncapi-bundles.ts:94-98 | the backend bundle is built from every section in order, the public one from the shared ones among them |
| `UnionExtensions.Bundle.MergeSchemas` | scripts/contracts/openapi-extensions.ts:197-205 | fragment schemas are added one by one, a taken name refused |
| `UnionExtensions.Bundle.AppendVariants` | scripts/contracts/openapi-extensions.ts:208-230 | variants are pushed to the union and its mapping, with the three refusals of the source |
| `UnionExtensions.VariantIsAppended` | scripts/contracts/openapi-extensions.ts:208-230 | an accepted variant is referred to by the union, and by its mapping under the code it carries |
| `UnionExtensions.Bundle.WithUnionExtensions` | scripts/contracts/openapi-extensions.ts:240-252 | all fragments are applied in order or the step is refused |
| `UnionExtensions.ExtendingKeepsUnionsConsistent` | scripts/contracts/openapi-extensions.ts:197-252 | over any fragments a union whose mapping matched its members one to one still does; variants follow in fragment order; nothing else changes |
| `UnionExtensions.AcceptsExactlyUnusedCodes` | scripts/contracts/openapi-extensions.ts:208-230 | a union accepts its variants exactly when each is declared and, with a mapping, carries a code nobody uses |
| `UnionExtensions.EnumSourcesOf` | scripts/contracts/openapi-extensions.ts:130-138 | the gathering loops compute the appended values of each schema |
| `UnionExtensions.SourcesInFragmentOrder` | scripts/contracts/openapi-extensions.ts:130-138 | an open enum is offered every value of every fragment in fragment order and nothing else |
| `FillEnum.NoPlaceholderIsLeft` | scripts/contracts/fill-enum.ts:90-106 | no tree the step returns holds a placeholder anywhere |
| `FillEnum.FillsNoneExactlyWhenClean` | scripts/contracts/fill-enum.ts:90-106 | a tree comes back untouched with count zero exactly when it holds no placeholder |
| `FillEnum.FillingTwiceIsOnce` | scripts/contracts/fill-enum.ts:90-106 | filling a filled document changes nothing |
| `FillEnum.FilledEnumInOrder` | scripts/contracts/fill-enum.ts:55-100 | a filled enum is the written values, then those of the source, then the appended ones, without repeats, and the instructions are gone |
| `FillEnum.EnumForExactly` | scripts/contracts/fill-enum.ts:40-84 | the enum a placeholder asks for, read off its fields: written, drawn from the source, appended; refused for a malformed list, a repeated value, or nothing to fill it with |
| `FillEnum.CountsPlaceholders` | scripts/contracts/fill-enum.ts:90-106 | the number reported is the number of placeholders filled |
| `FillEnum.OnlyStraysAreLeft` | scripts/contracts/fill-enum.ts:90-106 | an instruction to append is left in the document exactly when it stood on an object that names no source |
| `FillEnum.StrayAlsoStays` | scripts/contracts/fill-enum.ts:94-101 | an instance: values to append on an object that names no source come back as they were |
| `RouteMatcher.LiteralReadsBack` | scripts/contracts/generate-request-content-types.ts:49-62 | the generated literal, read as a regular expression, is the intended pattern exactly when the literal segments hold no line break |
| `RouteMatcher.PatternIsSegmentwise` | scripts/contracts/generate-request-content-types.ts:49-62 | the pattern accepts a text exactly when it splits on slashes into agreeing segments |
| `RouteMatcher.CompiledTemplateIsFaithful` | scripts/contracts/generate-request-content-types.ts:41-62 | a compiled template accepts exactly the paths with as many segments, literals equal ignoring case and parameters not empty |
| `RouteMatcher.ParametersAreBraced` | scripts/contracts/generate-request-content-types.ts:49-62 | the parameters of a template are its segments that start with a brace |
| `RouteMatcher.SortSorts` | scripts/contracts/generate-request-content-types.ts:92-96 | the sorted rows are a permutation of the rows, fewest parameters first |
| `RouteMatcher.RowsAreOrdered` | scripts/contracts/generate-request-content-types.ts:92-96 | rows with as many parameters stand in the order of verb and route, in any collation |
| `RouteMatcher.MostSpecificOperationDecides` | scripts/contracts/generate-request-content-types.ts:64-96 | the first row a request meets belongs to an operation it fits, with the fewest parameters of all it fits; a request that fits none meets no row |
| `RouteMatcher.FindsTheFirst` | src/infrastructure/http/middlewares/content-type.ts:56-58 | the lookup returns a matching row, the least parameterised of all matching ones, or none when none matches |
| `MarkerBlock.ApplyMarkerBlocks` | scripts/docs/marker-block.ts:58-67 | the splice loop yields the page after every block, or refuses as soon as a marker is missing |
| `MarkerBlock.SplicingTwiceIsOnce` | scripts/docs/marker-block.ts:58-67 | splicing one block again changes nothing exactly when its end marker does not lie before the end of its start marker; otherwise the page got longer and the end marker still comes first |
| `MarkerBlock.GrowsOnEveryRun` | scripts/docs/marker-block.ts:58-67 | so with the end marker first the page grows at every run of any number of runs, and otherwise the first run is the last that changes it |
| `MarkerBlock.SplicingFillsThePairs` | scripts/docs/marker-block.ts:58-67 | each pair gets exactly its own body between blank lines and every other character stays |
| `MarkerBlock.OrderDoesNotMatter` | scripts/docs/marker-block.ts:58-67 | the blocks may come in any order |
| `MarkerBlock.ApplyingTwiceIsOnce` | scripts/docs/marker-block.ts:58-67 | applying all blocks to their own result changes nothing |
| `NumericSeparators.GroupsOfThree` | scripts/contracts/shared-rules-render.ts:81-81 | a number is cut into groups of exactly three from the right with a first one of one to three |
| `NumericSeparators.RemovingSeparatorsGivesTheInput` | scripts/contracts/shared-rules-render.ts:79-82 | string literals are untouched, and removing the separators outside them gives the input back |
| `NumericSeparators.LiteralExactly` | scripts/contracts/shared-rules-render.ts:79-82 | a string literal is a quote, plain characters and backslash pairs, and a quote |
| `NumericSeparators.SeparatingTwiceIsOnce` | scripts/contracts/shared-rules-render.ts:79-82 | separating again changes nothing |
| `NumericSeparators.LongNumbersAreGrouped` | scripts/contracts/shared-rules-render.ts:79-82 | a run of digits is grouped in its place exactly when it has five or more digits and no word character beside it |
| `Backdate.Round` | scenarios/flows/shop-history.ts:643-643 | the nearest whole number to the value it is given, a half going up |
| `Backdate.SpreadRunsDown` | scenarios/flows/shop-history.ts:639-645 | for every rounding that behaves like doubles, the ages start at 80, never increase, never go below 0, and stay at least 1 exactly when there are at most 159 orders |
| `Backdate.LastAgeOf160` | scenarios/flows/shop-history.ts:639-645 | at 160 orders the nearest double to 159/160 leaves less than half a day, and the last order is dated today |
| `Backdate.DatesStayInPlacementOrder` | scenarios/flows/shop-history.ts:639-649 | moved back by their final ages, overrides included, the spread orders keep their dates in placement order |
| `Backdate.LongAgoMovesAhead` | scenarios/flows/shop-history.ts:647-649 | the order aged by hand stays behind an earlier one exactly when the time between them makes up for its extra age |
| `Backdate.History.UpdateMany` | scenarios/flows/backdate.ts:36-53 | one mover rewrites exactly the rows of its order in its collection |
| `Backdate.History.Backdate` | scenarios/flows/backdate.ts:160-165 | a list of moves rewrites each row by the moves one after the other |
| `Backdate.OneMove` | scenarios/flows/backdate.ts:107-118 | one move shifts the columns of its share, keeps absent ones absent and drops explicit nulls |
| `Backdate.TrackedExactly` | scenarios/flows/backdate.ts:65-105 | the columns that move with an order, collection by collection |
| `Backdate.WholeTrailMovesTogether` | scenarios/flows/backdate.ts:65-165 | however the writes interleave, every tracked date of an order moves by its own age exactly once and nothing else changes |
| `Backdate.NoObjectIsCreated` | scenarios/flows/backdate.ts:71-80 | however the writes interleave, no row gains an embedded object: the guarded mover only selects orders that carry the dotted date |
| `Backdate.GapsArePreserved` | scenarios/flows/backdate.ts:36-129 | two dates of one order, in whatever collections, stay as far apart as they were |

## Left out

- Text and YAML: documents are modelled as the trees and maps the code handles; parsing, printing, comments, anchors and Prettier formatting are not part of this model.
- JSON Schema keywords the emitter ignores (`pattern`, `format`, `minimum` and the like), and the TypeScript interfaces Modelina renders: only the validators are modelled.
- Identifier casing beyond ASCII letters and digits, and strings beyond one code point per character.
- Property lookups that would reach inherited keys (`constructor`, `__proto__`) in plain objects used as maps.
- `localiseOpenApiReferences` and `appendExtensions` of the webhook events: sections are taken after them. `AsyncBundles` lets a section load as any document or fail.
- `checkExtensions` and `localise` of the OpenAPI extensions: fragments are taken with their refs already local.
- Mongoose and MongoDB: `diffIndexes` and `createIndexes` are a small contract in `IndexSync`. `createIndexes` tries every declaration, passes over the refused ones and rejects at the end. An index that is both sparse and partial, which the server refuses, cannot be written down; duplicate grouping takes keys as plain fields, not dotted paths into arrays.
- IndexSync.Database.ApplyIndexSync: one release at a time; two syncs running at once are not modelled.
- DemoDatabase.Connection.EmptyDatabase: the deletes run one after the other with nobody else writing; what interleaved writes leave is stated beside it, by `DemoDatabase.EmptyingKeepsLaterWrites`.
- SchemaOrder.ReferencesComeFirst: references by names outside word characters are not followed, as in the source; what that costs the generated module is stated by `ZodModule.ReorderedModuleLoadsExactly`.
- SchemaOrder.AcyclicDeclaresBeforeUse: the same.
- Models registered after a snapshot was captured, and the order of documents inside a collection.
- The time that passes while the fake clock is being reset, and its default ticking: ticks are events.
- RestoreQueue and the run half of Waves are state machines over values: promises, not fields, carry their state in the source.
- What a failed restore had under way is bounded write by write, not in all: the restore queue lets an insert of its copy land more than once.
- Cluster: respawn timers are unreferenced, so a primary whose last worker has gone may exit before one fires; in the model every pending timer may still fire.
- The SIGKILL round of the forced shutdown (its exit code is modelled), log lines, and the worker side of the cluster.
- Cluster.Primary.HandleExit: the worker list may still hold a worker whose channel is open, so exit code 0 waits for both; what Node does after that is not modelled.
- FillEnum: placeholders are filled on values, so two places that share one node in memory are two nodes here.
- UnionExtensions.Bundle: schemas are keyed values; the order of names in the schema map is not modelled.
- MarkerBlock.SplicingFillsThePairs: the page is given as text with marker pairs in it, each marker occurring once; pages with nested or crossing pairs are outside it.
- RouteMatcher: case folding is any function under which only the slash folds to a slash; ties between rows use any collation.
- Backdate: waiting for the audit trail to settle; a dotted column is one name, with the embedded object it lies in beside it.
- Backdate.SpreadRunsDown: doubles are any rounding with the listed properties of IEEE 754 binary64, not its bit patterns.
- The wording of error messages, exit codes of scripts, disk walks, git and HTTP calls.
