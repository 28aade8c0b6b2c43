/**
 * The planet extension orchestrator: the table of per-kind storages (slot 0
 * empty, slot i the storage of registered kind i), the loaded flag, and the
 * operations that initialise the table, fan lifecycle events and per-frame
 * phases out to the storages, and frame the save data.
 */
module PlanetExtensions {
  import opened Wrappers
  import opened Extensions
  import opened Dispatch
  import opened SaveFormat

  /** The result of `ThrowIfNotLoaded`: `NotLoaded` stands for its `InvalidOperationException`. */
  datatype Outcome = Pass | NotLoaded

  /** The table mirrors the registry: same length, slot 0 null, slot i the storage initialised for kind i. */
  ghost predicate Mirrors(extensions: seq<PlanetExtensionStorage?>, registry: seq<Kind>) {
    && |extensions| == |registry| >= 1
    && extensions[0] == null
    && forall i :: 1 <= i < |extensions| ==>
         extensions[i] != null && extensions[i].index == i && extensions[i].kind == registry[i]
  }

  class PlanetExtensionSystem {
    /** `registry.data`: slot 0 is the registry's sentinel, slots 1 .. Count-1 the live kinds. */
    const registry: seq<Kind>
    /** `extensions`: empty until the first `InitOnLoad` of a loaded subsystem. */
    var extensions: seq<PlanetExtensionStorage?>
    /** `Loaded`. */
    var loaded: bool
    /** Whether any handler is subscribed to `onInitNewPlanet`. */
    var onInitNewPlanet: bool
    /**
     * The calls made on storages, extensions, the new-planet event and the registry's
     * import, in order. Not recorded: `GetExtension` and the multithread queries (their
     * answers are each kind's `isListener` and `multithread`), and `ExportContainer`
     * (it is the `Container` item of the written stream).
     */
    ghost var trace: seq<Call>

    ghost predicate Valid()
      reads this`extensions
    {
      |registry| >= 1 && (extensions == [] || Mirrors(extensions, registry))
    }

    /** The kinds whose storages sit in the table, by slot. */
    ghost function Kinds(): (ks: seq<Kind>)
      reads this`extensions
      requires Valid()
      ensures |ks| == |extensions|
      ensures forall i :: 1 <= i < |ks| ==>
        extensions[i] != null && extensions[i].index == i && extensions[i].kind == ks[i]
    {
      if extensions == [] then [] else registry
    }

    constructor (registry: seq<Kind>)
      requires |registry| >= 1
      ensures Valid() && this.registry == registry
      ensures extensions == [] && !loaded && !onInitNewPlanet && trace == []
    {
      this.registry := registry;
      extensions := [];
      loaded := false;
      onInitNewPlanet := false;
      trace := [];
    }

    /** The internal setter of `Loaded`. */
    method SetLoaded(value: bool)
      modifies this`loaded
      ensures loaded == value
    {
      loaded := value;
    }

    method ThrowIfNotLoaded() returns (r: Outcome)
      ensures r == NotLoaded <==> !loaded
    {
      r := if loaded then Pass else NotLoaded;
    }

    /**
     * When loaded, rebuilds the table: a null slot 0, then a fresh storage
     * for every live kind, initialised in ascending order. When not loaded,
     * does nothing.
     */
    method InitOnLoad()
      requires Valid()
      modifies this`extensions, this`trace
      ensures Valid()
      ensures !loaded ==> extensions == old(extensions) && trace == old(trace)
      ensures loaded ==> Mirrors(extensions, registry) && Kinds() == registry
      ensures loaded ==> forall i :: 1 <= i < |extensions| ==> fresh(extensions[i])
      ensures loaded ==> trace == old(trace) + Sweep(LoadInit, |registry|)
    {
      if loaded {
        extensions := [null];
        var i := 1;
        while i < |registry|
          invariant 1 <= i <= |registry|
          invariant |extensions| == i && extensions[0] == null
          invariant forall k :: 1 <= k < i ==>
            extensions[k] != null && fresh(extensions[k])
            && extensions[k].index == k && extensions[k].kind == registry[k]
          invariant trace == old(trace) + Sweep(LoadInit, i)
        {
          var storage := new PlanetExtensionStorage.InitOnLoad(i, registry[i]);
          extensions := extensions + [storage];
          trace := trace + [StorageCall(storage.index, LoadInit)];
          i := i + 1;
        }
      }
    }

    /**
     * Initialises the new planet in the storage of every live kind, in
     * ascending order, and then raises `onInitNewPlanet` if anyone listens.
     * The loop runs to the registry's count, so the table must be built
     * whenever the registry has live kinds.
     */
    method InitNewPlanet(planet: PlanetId)
      requires Valid()
      requires |registry| > 1 ==> extensions != []
      modifies this`trace
      ensures trace == old(trace) + Sweep(NewPlanet(planet), |registry|)
                     + (if onInitNewPlanet then [NewPlanetHook(planet)] else [])
    {
      var i := 1;
      while i < |registry|
        invariant 1 <= i <= |registry|
        invariant trace == old(trace) + Sweep(NewPlanet(planet), i)
      {
        var storage := extensions[i];
        trace := trace + [StorageCall(storage.index, NewPlanet(planet))];
        i := i + 1;
      }
      if onInitNewPlanet {
        trace := trace + [NewPlanetHook(planet)];
      }
    }

    /** Calls `hook` on every listener kind's extension, ascending. */
    method NotifyListeners(hook: Hook, factory: Factory, notice: Notice)
      requires Valid()
      modifies this`trace
      ensures trace == old(trace) + ListenerSweep(Notify(hook, factory, notice), Kinds(), |extensions|)
    {
      var i := 1;
      while i < |extensions|
        invariant 1 <= i && (i <= |extensions| || i == 1)  // `i == 1` covers an unbuilt, empty table
        invariant trace == old(trace) + ListenerSweep(Notify(hook, factory, notice), Kinds(), i)
      {
        var storage := extensions[i];
        if storage.IsListener() {
          trace := trace + [StorageCall(storage.index, Notify(hook, factory, notice))];
        }
        i := i + 1;
      }
    }

    /**
     * Tells every listener kind that an entity's logic components were added,
     * and only then, in a second pass, that they are in place.
     */
    method CreateEntityComponents(factory: Factory, entityId: int, desc: PrefabId, prebuildId: int)
      requires Valid()
      modifies this`trace
      ensures trace == old(trace) + AddNotifications(Kinds(), factory, Added(entityId, desc, prebuildId))
    {
      NotifyListeners(LogicComponentsAdd, factory, Added(entityId, desc, prebuildId));
      NotifyListeners(PostlogicComponentsAdd, factory, Added(entityId, desc, prebuildId));
    }

    /** Tells every listener kind, in one ascending pass, that an entity's components were removed. */
    method RemoveEntityComponents(factory: Factory, entityId: int)
      requires Valid()
      modifies this`trace
      ensures trace == old(trace)
                     + ListenerSweep(Notify(LogicComponentsRemove, factory, Removed(entityId)), Kinds(), |extensions|)
    {
      NotifyListeners(LogicComponentsRemove, factory, Removed(entityId));
    }

    /**
     * `DrawUpdate`, `PowerUpdate`, `PreUpdate`, `Update` and `PostUpdate`:
     * nothing for a null factory, otherwise phase `p` on every live kind's
     * storage, ascending.
     */
    method PhaseUpdate(p: Phase, factory: Factory)
      requires Valid()
      modifies this`trace
      ensures factory.None? ==> trace == old(trace)
      ensures factory.Some? ==> trace == old(trace) + Sweep(Step(p, factory, SingleThread), |extensions|)
    {
      if factory.None? {
        return;
      }
      var i := 1;
      while i < |extensions|
        invariant 1 <= i && (i <= |extensions| || i == 1)  // `i == 1` covers an unbuilt, empty table
        invariant trace == old(trace) + Sweep(Step(p, factory, SingleThread), i)
      {
        var storage := extensions[i];
        trace := trace + [StorageCall(storage.index, Step(p, factory, SingleThread))];
        i := i + 1;
      }
    }

    /**
     * `PowerUpdateOnlySinglethread` .. `PostUpdateOnlySinglethread` over
     * `data.factories[0 .. factoryCount-1]`: walks the non-null factories and,
     * for each, the live kinds; the first kind whose multithread query for `p`
     * answers true ends the whole call before it is run.
     */
    method PhaseUpdateOnlySinglethread(p: Phase, factories: seq<Factory>)
      requires Valid() && p.HasThreadedVariant()
      modifies this`trace
      ensures trace == old(trace) + SinglethreadRun(p, Kinds(), factories)
    {
      ghost var kinds := Kinds();
      ghost var n := |extensions|;
      var i := 0;
      while i < |factories|
        invariant 0 <= i <= |factories|
        invariant trace == old(trace) + Schedule(p, factories[..i], n)
        invariant NoneThreaded(p, kinds, Schedule(p, factories[..i], n))
      {
        ghost var done := Schedule(p, factories[..i], n);
        var stopped, ran := SinglethreadFactory(p, factories, i);
        Reassociate(old(trace), done, ran);
        if stopped {
          return;
        }
        ScheduleStep(p, factories, i, n);
        i := i + 1;
      }
      assert factories[..i] == factories;
      SinglethreadComplete(p, kinds, factories);
    }

    /**
     * One turn of the fallback's outer loop: for a non-null factory, phase `p`
     * on the live kinds in ascending order until one answers true to its
     * multithread query, which ends the whole fallback (`stopped`).
     */
    method SinglethreadFactory(p: Phase, factories: seq<Factory>, i: nat) returns (stopped: bool, ghost ran: seq<Call>)
      requires Valid() && i < |factories|
      requires NoneThreaded(p, Kinds(), Schedule(p, factories[..i], |extensions|))
      modifies this`trace
      ensures trace == old(trace) + ran
      ensures stopped ==> Schedule(p, factories[..i], |extensions|) + ran == SinglethreadRun(p, Kinds(), factories)
      ensures !stopped ==> ran == Row(p, factories[i], |extensions|)
      ensures !stopped ==> NoneThreaded(p, Kinds(), Schedule(p, factories[..i], |extensions|) + ran)
      ensures factories[i].None? ==> !stopped && ran == []
      ensures stopped <==> factories[i].Some? && exists j :: 1 <= j < |extensions| && p in Kinds()[j].multithread
    {
      ghost var kinds := Kinds();
      ghost var done := Schedule(p, factories[..i], |extensions|);
      var factory := factories[i];
      if factory.None? {
        assert done + [] == done;
        return false, [];
      }
      ghost var op := Step(p, factory, SingleThread);
      var j := 1;
      while j < |extensions|
        invariant 1 <= j && (j <= |extensions| || j == 1)  // `j == 1` covers an unbuilt, empty table
        invariant trace == old(trace) + Sweep(op, j)
        invariant NoneThreaded(p, kinds, Sweep(op, j))
        invariant forall k :: 1 <= k < j ==> p !in kinds[k].multithread
      {
        var storage := extensions[j];
        assert storage.kind == kinds[j] && storage.index == j;
        if storage.SupportsMultithread(p) {
          NoneThreadedConcat(p, kinds, done, Sweep(op, j));
          SinglethreadAbort(p, kinds, factories, i, j);
          return true, Sweep(op, j);
        }
        NoneThreadedAppend(p, kinds, Sweep(op, j), StorageCall(j, op));
        trace := trace + [StorageCall(storage.index, op)];
        j := j + 1;
      }
      NoneThreadedConcat(p, kinds, done, Sweep(op, j));
      return false, Sweep(op, j);
    }

    /**
     * `PowerUpdateMultithread` .. `PostUpdateMultithread`: phase `p` on every
     * live kind's storage, ascending, with the worker partition passed on
     * unchanged and no early exit.
     */
    method PhaseUpdateMultithread(p: Phase, factory: Factory, usedThreadCount: int, currentThreadIdx: int, minimumCount: int)
      requires Valid() && p.HasThreadedVariant()
      modifies this`trace
      ensures trace == old(trace)
        + Sweep(Step(p, factory, MultiThread(Partition(usedThreadCount, currentThreadIdx, minimumCount))), |extensions|)
    {
      var threads := Partition(usedThreadCount, currentThreadIdx, minimumCount);
      var i := 1;
      while i < |extensions|
        invariant 1 <= i && (i <= |extensions| || i == 1)  // `i == 1` covers an unbuilt, empty table
        invariant trace == old(trace) + Sweep(Step(p, factory, MultiThread(threads)), i)
      {
        var storage := extensions[i];
        trace := trace + [StorageCall(storage.index, Step(p, factory, MultiThread(threads)))];
        i := i + 1;
      }
    }

    /**
     * Reads the format version (unused) and the loaded flag, and hands the
     * rest of the stream to `registry.ImportAndMigrate` exactly when the flag
     * is true. A read past the end fails like the reader's exception.
     */
    method Import(stream: seq<Token>) returns (r: Result<Frame, ReadError>)
      requires Valid()
      modifies this`trace
      ensures r == ReadFrame(stream)
      ensures trace == old(trace) + (if r.Ok? && r.value.wasLoaded then [ImportAndMigrate(r.value.rest)] else [])
    {
      var version := ReadInt32(stream);
      if version.Err? {
        return Err(version.error);
      }
      var wasLoaded := ReadBoolean(version.value.1);
      if wasLoaded.Err? {
        return Err(wasLoaded.error);
      }
      var rest := wasLoaded.value.1;
      if wasLoaded.value.0 {
        trace := trace + [ImportAndMigrate(rest)];
      }
      r := Ok(Frame(version.value.0, wasLoaded.value.0, rest));
    }

    /** Writes the format version 0 and the loaded flag, then the registry's container only when loaded. */
    method Export() returns (written: seq<Token>)
      ensures written == ExportStream(loaded)
      ensures |written| >= 2 && written[0] == I32(FormatVersion) && written[1] == Bool(loaded)
      ensures Container in written <==> loaded
      ensures ReadFrame(written) == Ok(Frame(FormatVersion, loaded, if loaded then [Container] else []))
    {
      written := [I32(FormatVersion)];
      written := written + [Bool(loaded)];
      if loaded {
        written := written + [Container];
      }
      ExportThenRead(loaded, []);
      assert ExportStream(loaded) + [] == written;
    }
  }
}
