/**
 * The collaborators of the planet extension orchestrator: the registered
 * extension kinds, the per-kind storages, and the calls the orchestrator
 * makes on them (recorded in a trace, since their bodies are not modelled).
 */
module Extensions {
  import opened Wrappers
  import SaveFormat

  /** Abstract identities of host objects; the orchestrator only passes them on. */
  type FactoryId = nat
  type PlanetId = nat
  type PrefabId = nat

  /** A `PlanetFactory` reference, which may be null. */
  type Factory = Option<FactoryId>

  /** The per-frame update phases. */
  datatype Phase = Draw | Power | Pre | Update | Post {
    /** Draw has no single-thread fallback and no multithreaded variant. */
    predicate HasThreadedVariant() { this != Draw }
  }

  /**
   * What the registry knows about one kind: whether its extension implements
   * `IComponentStateListener`, and the phases whose `...SupportsMultithread()`
   * query answers true.
   */
  datatype Kind = Kind(isListener: bool, multithread: set<Phase>)

  /** The host's worker-partition descriptor, passed through unchanged. */
  datatype Partition = Partition(usedThreadCount: int, currentThreadIdx: int, minimumCount: int)

  /** How a phase is run on a storage: the plain call or the `...Multithread` variant. */
  datatype Mode = SingleThread | MultiThread(threads: Partition)

  /** The three `IComponentStateListener` hooks. */
  datatype Hook = LogicComponentsAdd | PostlogicComponentsAdd | LogicComponentsRemove

  /** The arguments a listener hook receives. */
  datatype Notice =
    | Added(entityId: int, desc: PrefabId, prebuildId: int)
    | Removed(entityId: int)

  /** One call on the storage (or on its extension) of a kind. */
  datatype StorageOp =
    | LoadInit                                         // storage.InitOnLoad(data, i)
    | NewPlanet(planet: PlanetId)                      // storage.InitNewPlanet(planet)
    | Notify(hook: Hook, target: Factory, notice: Notice)  // listener hook on GetExtension(factory)
    | Step(phase: Phase, factory: Factory, mode: Mode) // a phase update

  /** Everything the orchestrator does to its collaborators. */
  datatype Call =
    | StorageCall(kind: nat, op: StorageOp)
    | NewPlanetHook(planet: PlanetId)                  // onInitNewPlanet?.Invoke(planet)
    | ImportAndMigrate(source: seq<SaveFormat.Token>)  // registry.ImportAndMigrate(extensions, r)

  /**
   * The storage of one kind. Its identity (the kind index it was initialised
   * with) and its capabilities never change after initialisation; its
   * per-planet extension state is not modelled.
   */
  class PlanetExtensionStorage {
    const index: nat
    const kind: Kind

    /** `new PlanetExtensionStorage()` followed by `storage.InitOnLoad(data, index)`. */
    constructor InitOnLoad(index: nat, kind: Kind)
      ensures this.index == index && this.kind == kind
    {
      this.index := index;
      this.kind := kind;
    }

    predicate SupportsMultithread(p: Phase) { p in kind.multithread }

    /** Whether `GetExtension(factory) is IComponentStateListener`. */
    predicate IsListener() { kind.isListener }
  }
}
