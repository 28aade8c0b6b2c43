# Planet extension system — a Dafny model

This project models `PlanetExtensionSystem` from CommonAPI, a modding library for
Dyson Sphere Program. It is the static orchestrator that keeps one storage per
registered planet-extension kind and fans every game event out to those storages:
- save load;
- new planet creation;
- entity component add and remove;
- the five per-factory tick phases (draw, power, pre, update, post);
- the single-thread fallback walk;
- the multi-thread partitioned tick;
- the save-file frame.

Files:

- `wrappers.dfy` — `Option` and `Result`.
- `save_format.dfy` — the save frame. It holds a 32-bit version, the `Loaded` flag and, when loaded, the registry's container. `ExportStream` writes the frame, `ReadInt32`, `ReadBoolean` and `ReadFrame` read it back, and `ExportThenRead` proves the round trip.
- `storage.dfy` — the entities:
  - a `Kind` records whether the extension kind listens for component state, and which phases support multithreading;
  - the storage class `PlanetExtensionStorage`;
  - the calls the orchestrator makes (`Call`).
- `dispatch.dfy` — pure specifications of each walk:
  - `Sweep` is one ascending pass over slots 1..n-1;
  - `ListenerSweep` is the pass restricted to listeners;
  - `Schedule` is the factory-by-kind walk;
  - `SinglethreadRun` is the prefix of that walk which the fallback actually performs.
  The file also holds the lemmas about these walks.
- `planet_extension_system.dfy` — the class `PlanetExtensionSystem`. Its fields are:
  - `registry`, the registered kinds, with slot 0 reserved;
  - `extensions`, the table;
  - `loaded`;
  - `onInitNewPlanet`, which records whether a hook is subscribed;
  - a ghost `trace` of the calls made into storages, hooks and the registry. Two kinds of storage query are not recorded: `GetExtension`, and the `...SupportsMultithread()` queries. Their answers are modelled by each kind's `isListener` flag and `multithread` set. Listener status is taken to be fixed per kind: the source tests, per factory, whether `GetExtension(factory)` returns a listener, and skips a kind whose extension is null for that factory; the model notifies every listener kind. `ExportContainer` is not traced either: it is the `Container` item in the written stream.
  Each method is proved against the pure specification of its walk.

The table invariant (`Mirrors`) says three things: slot 0 is null; slot `i` holds a
storage whose index is `i` and whose kind is the registry's entry `i`; and the table
is as long as the registry. `InitOnLoad` establishes it and no other method changes
the table.

## Model

| member | source | states |
|---|---|---|
| PlanetExtensions.PlanetExtensionSystem.constructor | CommonAPI/Systems/PlanetExtensionSystem/PlanetExtensionSystem.cs:11-25 | the system starts with an empty table, not loaded, no new-planet hook and no calls made |
| PlanetExtensions.PlanetExtensionSystem.SetLoaded | CommonAPI/Systems/PlanetExtensionSystem/PlanetExtensionSystem.cs:20-25 | the `Loaded` setter sets the flag and changes nothing else |
| PlanetExtensions.PlanetExtensionSystem.ThrowIfNotLoaded | CommonAPI/Systems/PlanetExtensionSystem/PlanetExtensionSystem.cs:41-48 | the call fails (NotLoaded) exactly when the subsystem is not loaded |
| Extensions.PlanetExtensionStorage.InitOnLoad | CommonAPI/Systems/PlanetExtensionSystem/PlanetExtensionSystem.cs:63-64 | a new storage is bound to the slot index and to that slot's registered kind |
| PlanetExtensions.PlanetExtensionSystem.InitOnLoad | CommonAPI/Systems/PlanetExtensionSystem/PlanetExtensionSystem.cs:51-68 | when not loaded, nothing changes. When loaded, the table is rebuilt: null in slot 0, and a fresh storage per registered kind with matching index. Storages are initialised in ascending slot order, once each |
| PlanetExtensions.PlanetExtensionSystem.InitNewPlanet | CommonAPI/Systems/PlanetExtensionSystem/PlanetExtensionSystem.cs:70-79 | every registered storage 1..n-1 is told about the planet in ascending order. Only after that is the new-planet hook invoked, and only if one is subscribed |
| PlanetExtensions.PlanetExtensionSystem.NotifyListeners | CommonAPI/Systems/PlanetExtensionSystem/PlanetExtensionSystem.cs:84-92 | one pass notifies exactly the listener storages of slots 1..n-1, in ascending order |
| PlanetExtensions.PlanetExtensionSystem.CreateEntityComponents | CommonAPI/Systems/PlanetExtensionSystem/PlanetExtensionSystem.cs:82-103 | the calls are the full logic-add pass over listeners, then the full post-logic-add pass |
| PlanetExtensions.PlanetExtensionSystem.RemoveEntityComponents | CommonAPI/Systems/PlanetExtensionSystem/PlanetExtensionSystem.cs:105-116 | only listener storages receive the removal, once each, in ascending order |
| PlanetExtensions.PlanetExtensionSystem.PhaseUpdate | CommonAPI/Systems/PlanetExtensionSystem/PlanetExtensionSystem.cs:118-173 | a null factory makes no call. Otherwise every storage 1..n-1 runs the phase for that factory, single-threaded, in ascending order |
| PlanetExtensions.PlanetExtensionSystem.PhaseUpdateOnlySinglethread | CommonAPI/Systems/PlanetExtensionSystem/PlanetExtensionSystem.cs:175-242 | the calls made are exactly the longest prefix of the factory-by-kind walk that contains no storage supporting that phase's multithread variant |
| PlanetExtensions.PlanetExtensionSystem.SinglethreadFactory | CommonAPI/Systems/PlanetExtensionSystem/PlanetExtensionSystem.cs:179-188 | a null factory is skipped: no call, and the walk goes on. Otherwise storages run in order until one supports multithreading, which ends the whole walk. That first such storage is not run. The walk stops at this factory exactly when it is non-null and some live kind supports the phase's multithreading |
| PlanetExtensions.PlanetExtensionSystem.PhaseUpdateMultithread | CommonAPI/Systems/PlanetExtensionSystem/PlanetExtensionSystem.cs:244-278 | every storage 1..n-1 runs the multithread variant, in ascending order, with the partition arguments passed unchanged |
| PlanetExtensions.PlanetExtensionSystem.Import | CommonAPI/Systems/PlanetExtensionSystem/PlanetExtensionSystem.cs:281-290 | the version and the flag are read first. The registry imports the remainder exactly when the flag was true. A short stream is an error |
| PlanetExtensions.PlanetExtensionSystem.Export | CommonAPI/Systems/PlanetExtensionSystem/PlanetExtensionSystem.cs:292-301 | writes version 0 and the loaded flag, step by step. The registry container follows exactly when loaded. Reading the result back gives version 0, the same flag, and the container exactly when loaded |
| SaveFormat.ExportStream | CommonAPI/Systems/PlanetExtensionSystem/PlanetExtensionSystem.cs:292-301 | the frame starts with version 0 and the flag. It holds a container exactly when loaded |
| SaveFormat.ReadInt32 | CommonAPI/Systems/PlanetExtensionSystem/PlanetExtensionSystem.cs:283 | reading succeeds iff the next item is a 32-bit integer, and consumes exactly it. An empty stream gives end-of-stream |
| SaveFormat.ReadBoolean | CommonAPI/Systems/PlanetExtensionSystem/PlanetExtensionSystem.cs:284 | reading succeeds iff the next item is a boolean, and consumes exactly it. An empty stream gives end-of-stream |
| SaveFormat.ReadFrame | CommonAPI/Systems/PlanetExtensionSystem/PlanetExtensionSystem.cs:281-285 | the header reads iff the stream starts with an integer and a boolean. The rest is the stream after those two items |
| SaveFormat.ExportThenRead | CommonAPI/Systems/PlanetExtensionSystem/PlanetExtensionSystem.cs:281-301 | reading back what Export wrote gives version 0, the same loaded flag, and the container (when loaded) followed by whatever came after |
| Dispatch.Sweep | CommonAPI/Systems/PlanetExtensionSystem/PlanetExtensionSystem.cs:122-127 | a pass over a table of n slots makes n-1 calls. Call k goes to slot k+1, so slot 0 is never called |
| Dispatch.SweepCalls | CommonAPI/Systems/PlanetExtensionSystem/PlanetExtensionSystem.cs:118-173 | a pass calls a slot iff the slot is 1..n-1 |
| Dispatch.ListenerSweepShape | CommonAPI/Systems/PlanetExtensionSystem/PlanetExtensionSystem.cs:84-92 | a listener pass calls a slot iff it is 1..n-1 and its kind is a listener. The calls come in strictly ascending slot order |
| Dispatch.AddNotificationsTwoPass | CommonAPI/Systems/PlanetExtensionSystem/PlanetExtensionSystem.cs:82-103 | every logic-add notification precedes every post-logic-add notification. Each listener receives each of the two, and non-listeners receive neither. No notification appears twice, so each listener receives each exactly once |
| Dispatch.ScheduleShape | CommonAPI/Systems/PlanetExtensionSystem/PlanetExtensionSystem.cs:175-190 | the factory-by-kind walk only calls live slots, single-threaded, for the phase, and only with non-null factories drawn from the list |
| Dispatch.ScheduleAppend | CommonAPI/Systems/PlanetExtensionSystem/PlanetExtensionSystem.cs:177-189 | the walk over two factory lists in a row is the walk over the first, then the walk over the second |
| Dispatch.ScheduleCovers | CommonAPI/Systems/PlanetExtensionSystem/PlanetExtensionSystem.cs:177-188 | every non-null factory is paired with every live slot somewhere in the walk |
| Dispatch.FirstThreaded | CommonAPI/Systems/PlanetExtensionSystem/PlanetExtensionSystem.cs:185 | finds the first call whose storage supports multithreading, or the length if there is none. No call before it qualifies |
| Dispatch.SinglethreadRun | CommonAPI/Systems/PlanetExtensionSystem/PlanetExtensionSystem.cs:175-190 | the fallback's calls are a prefix of the walk and none of them is multithreaded. If the prefix is shorter than the walk, the next call in the walk is multithreaded |
| Dispatch.SinglethreadAbort | CommonAPI/Systems/PlanetExtensionSystem/PlanetExtensionSystem.cs:182-185 | hitting a multithread-capable storage on factory i stops everything. Later slots and all later factories are never run |
| Dispatch.SinglethreadComplete | CommonAPI/Systems/PlanetExtensionSystem/PlanetExtensionSystem.cs:177-189 | when no storage in the walk supports multithreading, the fallback performs the whole walk |
| Dispatch.FirstNonNull | CommonAPI/Systems/PlanetExtensionSystem/PlanetExtensionSystem.cs:179-180 | finds the first non-null factory, or the length. Every factory before it is null |
| Dispatch.FirstThreadedKind | CommonAPI/Systems/PlanetExtensionSystem/PlanetExtensionSystem.cs:182-185 | finds the first live slot from j whose kind supports the phase's multithreading. No slot between j and it does |
| Dispatch.SinglethreadClosedForm | CommonAPI/Systems/PlanetExtensionSystem/PlanetExtensionSystem.cs:175-242 | the fallback runs only the first non-null factory's row up to the first multithread kind. With no such kind it runs the whole walk. With no non-null factory it runs nothing |
| Dispatch.SinglethreadKindOneThreaded | CommonAPI/Systems/PlanetExtensionSystem/PlanetExtensionSystem.cs:182-185 | if slot 1 supports the phase's multithreading, the fallback makes no call at all |

## Left out

- `SetHooks` and `load` are left out. They install game patches and register the registry by name, and that plumbing is outside this model.
- Log output is left out.
- The registry's own `ImportAndMigrate` and `ExportContainer` are not part of this model:
  - the import is one `ImportAndMigrate` entry in the trace, carrying the remaining stream;
  - the export is one opaque `Container` item.
- The storage internals are not part of this model. That covers per-planet extension instances, `GetExtension` and the phase bodies. A storage is its slot index and its kind, and each storage call is one entry in the trace. Failures those calls could raise are not modelled.
- The `GameData` passed to storages on load is left out: the model records only which slot was initialised.
- `pendingData` is declared but never used by the class, so it is not modelled.
- Real concurrency is left out. The multithread methods are modelled as one thread's pass with its partition arguments; scheduling across threads belongs to the game.
- The binary layout of `BinaryReader` and `BinaryWriter` is modelled as a stream of typed items (`Token`):
  - reading an item of the wrong type gives `Mismatch`, which exists only in this item model;
  - a byte stream would reinterpret the bytes instead.
- `PlanetExtensions.PlanetExtensionSystem.Import`: the version read from the frame is not validated, as in the source.
- `GameData.factories` with `factoryCount` is modelled as the list of the first `factoryCount` factory slots, each possibly null.
- The four `*OnlySinglethread`, four `*Multithread` and five per-factory phase methods are written once each, parameterised by `Phase`:
  - `Phase.Draw` has no multithread variants, so `PhaseUpdateOnlySinglethread` and `PhaseUpdateMultithread` require another phase;
  - `DrawUpdate` is `PhaseUpdate(Draw, ·)`.
- The `onInitNewPlanet` delegate is modelled as a flag saying whether any subscriber exists. The subscribers themselves are not modelled.
- `PlanetExtensions.PlanetExtensionSystem.InitNewPlanet` requires a built table whenever kinds are registered. The source indexes the table by the registry's count, so calling it before `InitOnLoad` throws. That exception path is not modelled.
- Creating a storage and calling its `InitOnLoad` are merged into the storage's one constructor.
- The UI and data-loader patches and the star-system data in the same repository are not part of this model.
- The type registry's registration, freezing and id assignment are not part of this model. The registry is a fixed sequence of kinds whose slot 0 is reserved.
