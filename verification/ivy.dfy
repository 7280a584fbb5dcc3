/**
  Abstract records for the Ivy objects `DefaultSettingsConverter` wires
  together. Only what the converter sets and reads is kept: names, chain
  membership and flags, the settings fields it writes, the repositories'
  transfer-listener lists and which settings each cache manager was given.
  How a chain queries its members and how the client-module resolver looks a
  module up are not part of this model.
 */
module Ivy {
  import opened Wrappers

  type RepositoryId = nat
  type CacheManagerId = nat
  type SettingsId = nat
  type ListenerId = nat

  /** Module id to client-module descriptor, as the caller's registry holds them. */
  type Registry = map<string, string>

  datatype Resolver =
      /** A resolver configured elsewhere; repository-backed when it has a
          repository, and with its own cache manager when one was set on it. */
    | External(name: string, repository: Option<RepositoryId>, cacheManager: Option<CacheManagerId>)
      /** `ChainResolver`. */
    | Chain(
        name: string,
        members: seq<Resolver>,
        returnFirst: bool,
        changingPattern: Option<string>,
        changingMatcher: Option<string>)
      /** `ClientModuleResolver`: the registry, with a fallback resolver behind it. */
    | ClientModule(name: string, registry: Registry, fallback: Resolver)

  /** A `RepositoryResolver` is an external resolver with a repository. */
  predicate IsRepositoryResolver(r: Resolver) {
    r.External? && r.repository.Some?
  }

  /** The fields of an `IvySettings` the converter writes. */
  datatype IvySettings = IvySettings(
    id: SettingsId,
    defaultCache: Option<string>,
    defaultCacheIvyPattern: Option<string>,
    defaultCacheArtifactPattern: Option<string>,
    variables: map<string, string>,
    defaultCacheManager: CacheManagerId,
    resolvers: seq<Resolver>,
    defaultResolver: Option<string>)

  /** `new IvySettings()`, whose default repository cache manager is `manager`. */
  function NewSettings(id: SettingsId, manager: CacheManagerId): (s: IvySettings)
    ensures s.id == id && s.defaultCacheManager == manager
    ensures s.resolvers == [] && s.defaultResolver == None
  {
    IvySettings(id, None, None, None, map[], manager, [], None)
  }

  /** The cache manager a resolver uses once registered with settings whose
      default manager is `default`: its own if one was set on it, otherwise the
      default. */
  function CacheManagerOf(r: Resolver, default: CacheManagerId): CacheManagerId {
    if r.External? && r.cacheManager.Some? then r.cacheManager.value else default
  }

  /** State outside the settings object that registration changes. */
  datatype World = World(
    listeners: map<RepositoryId, seq<ListenerId>>,
    cacheSettings: map<CacheManagerId, SettingsId>)

  /** A repository's transfer listeners; a repository never seen has none. */
  function ListenersOf(w: World, repo: RepositoryId): seq<ListenerId> {
    if repo in w.listeners then w.listeners[repo] else []
  }
}
