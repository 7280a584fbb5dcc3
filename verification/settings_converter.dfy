/**
  `DefaultSettingsConverter`: assembles the Ivy settings for publishing and for
  resolving. It builds the user resolver chain (the internal repository first,
  then the given resolvers), puts the client-module resolver in front of it in
  an outer chain, registers every resolver with a new settings object, shares one
  repository cache manager across the settings objects it builds, and attaches
  its transfer listener to every repository once.

  The converter's two fields (the captured cache manager and the settings set
  through `setIvySettings`) are explicit state; so are the repositories' listener
  lists and the cache managers' settings, kept in an `Ivy.World`. A new settings
  object, with the default cache manager it creates, is named by an `Allocation`
  the caller supplies.
 */
module SettingsConverter {
  import opened Wrappers
  import opened Ivy

  const CHAIN_RESOLVER_NAME := "chain"
  const CLIENT_MODULE_NAME := "clientModule"
  const CLIENT_MODULE_CHAIN_NAME := "clientModuleChain"
  const DEFAULT_CACHE_DIR_NAME := "cache"
  const DEFAULT_CACHE_IVY_PATTERN := "[organisation]/[module](/[branch])/ivy-[revision].xml"
  const DEFAULT_CACHE_ARTIFACT_PATTERN := "[organisation]/[module](/[branch])/[type]s/[artifact]-[revision](-[classifier]).[ext]"
  const SNAPSHOT_PATTERN := ".*-SNAPSHOT"
  const REGEXP := "regexp"
  const LOG_MODULES_VARIABLE := "ivy.log.modules.in.use"

  datatype Converter = Converter(
    transferListener: ListenerId,
    repositoryCacheManager: Option<CacheManagerId>,
    ivySettings: Option<IvySettings>)

  /** The identities of the objects one build allocates. */
  datatype Allocation = Allocation(settingsId: SettingsId, defaultCacheManager: CacheManagerId)

  /** A convert call's result with the converter and world after it. */
  datatype Converted = Converted(converter: Converter, world: World, settings: IvySettings)

  /** The constructor: nothing captured, no settings set. */
  function New(listener: ListenerId): (c: Converter)
    ensures c.transferListener == listener
    ensures c.repositoryCacheManager == None && c.ivySettings == None
  {
    Converter(listener, None, None)
  }

  function GetIvySettings(c: Converter): Option<IvySettings> {
    c.ivySettings
  }

  /** `setIvySettings`: the only writer of the settings field. */
  function SetIvySettings(c: Converter, s: Option<IvySettings>): (r: Converter)
    ensures GetIvySettings(r) == s
    ensures r.transferListener == c.transferListener
    ensures r.repositoryCacheManager == c.repositoryCacheManager
  {
    c.(ivySettings := s)
  }

  // ---------------------------------------------------------------- chains

  /** `ChainResolver.add` for each resolver in turn. */
  function AddMembers(chain: Resolver, rs: seq<Resolver>): (r: Resolver)
    requires chain.Chain?
    ensures r.Chain? && r.members == chain.members + rs
    ensures r == chain.(members := r.members)
    decreases |rs|
  {
    if |rs| == 0 then chain
    else
      var next := AddMembers(chain.(members := chain.members + [rs[0]]), rs[1..]);
      assert chain.members + [rs[0]] + rs[1..] == chain.members + rs;
      next
  }

  /** The user resolver chain: the internal repository, then the given
      resolvers, returning the first match and treating versions matching the
      snapshot pattern as changing. */
  predicate IsUserChain(u: Resolver, classpathResolvers: seq<Resolver>, internal: Resolver) {
    && u.Chain?
    && u.name == CHAIN_RESOLVER_NAME
    && u.members == [internal] + classpathResolvers
    && u.returnFirst
    && u.changingPattern == Some(SNAPSHOT_PATTERN)
    && u.changingMatcher == Some(REGEXP)
  }

  /** `createUserResolverChain`. */
  function UserResolverChain(classpathResolvers: seq<Resolver>, internal: Resolver): (u: Resolver)
    ensures IsUserChain(u, classpathResolvers, internal)
  {
    var empty := Chain(CHAIN_RESOLVER_NAME, [], false, None, None);
    var chain := AddMembers(empty, [internal]);
    var configured := chain.(changingPattern := Some(SNAPSHOT_PATTERN), changingMatcher := Some(REGEXP), returnFirst := true);
    AddMembers(configured, classpathResolvers)
  }

  /** `createClientModuleResolver`. */
  function ClientModuleResolver(registry: Registry, userChain: Resolver): (r: Resolver)
    ensures r.ClientModule? && r.name == CLIENT_MODULE_NAME
    ensures r.registry == registry && r.fallback == userChain
  {
    ClientModule(CLIENT_MODULE_NAME, registry, userChain)
  }

  /** `createOuterChain`: the client-module resolver, then the user chain. */
  function OuterChain(userChain: Resolver, clientModuleResolver: Resolver): (r: Resolver)
    ensures r.Chain? && r.name == CLIENT_MODULE_CHAIN_NAME && r.returnFirst
    ensures r.members == [clientModuleResolver, userChain]
    ensures r.changingPattern == None && r.changingMatcher == None
  {
    var chain := Chain(CLIENT_MODULE_CHAIN_NAME, [], false, None, None).(returnFirst := true);
    AddMembers(AddMembers(chain, [clientModuleResolver]), [userChain])
  }

  /** `getAllResolvers`. */
  function AllResolvers(
    classpathResolvers: seq<Resolver>, otherResolvers: seq<Resolver>, internal: Resolver,
    userChain: Resolver, clientModuleResolver: Resolver, outerChain: Resolver): (all: seq<Resolver>)
    ensures |all| == |otherResolvers| + |classpathResolvers| + 4
    ensures all[..|otherResolvers|] == otherResolvers
    ensures all[|otherResolvers|..|otherResolvers| + |classpathResolvers|] == classpathResolvers
    ensures all[|all| - 4..] == [internal, outerChain, clientModuleResolver, userChain]
  {
    otherResolvers + classpathResolvers + [internal, outerChain, clientModuleResolver, userChain]
  }

  /**
    The registered list of one build: the `inputs`, the internal repository, the
    outer chain, the client-module resolver and the user chain built from
    `chained`, with the outer chain holding exactly the client-module resolver
    and then that user chain, and the client-module resolver falling back to it.
   */
  predicate Registered(list: seq<Resolver>, inputs: seq<Resolver>, chained: seq<Resolver>, internal: Resolver, registry: Registry) {
    var n := |inputs|;
    && |list| == n + 4
    && list[..n] == inputs
    && list[n] == internal
    && IsUserChain(list[n + 3], chained, internal)
    && list[n + 2] == ClientModule(CLIENT_MODULE_NAME, registry, list[n + 3])
    && list[n + 1].Chain? && list[n + 1].name == CLIENT_MODULE_CHAIN_NAME && list[n + 1].returnFirst
    && list[n + 1].members == [list[n + 2], list[n + 3]]
    && list[n + 1].changingPattern == None && list[n + 1].changingMatcher == None
  }

  // ---------------------------------------------------------------- settings

  datatype Created = Created(converter: Converter, settings: IvySettings)

  /** `setRepositoryCacheManager`: the first settings' default manager is
      captured; every later settings object gets the captured one installed. */
  function SetRepositoryCacheManager(c: Converter, s: IvySettings): (r: Created)
    ensures c.repositoryCacheManager.None? ==>
      r.converter == c.(repositoryCacheManager := Some(s.defaultCacheManager)) && r.settings == s
    ensures c.repositoryCacheManager.Some? ==>
      r.converter == c && r.settings == s.(defaultCacheManager := c.repositoryCacheManager.value)
    ensures r.converter.repositoryCacheManager == Some(r.settings.defaultCacheManager)
  {
    if c.repositoryCacheManager.None? then Created(c.(repositoryCacheManager := Some(s.defaultCacheManager)), s)
    else Created(c, s.(defaultCacheManager := c.repositoryCacheManager.value))
  }

  /** `new File(home, name)` as a path string. */
  function ChildPath(home: string, name: string): string {
    home + "/" + name
  }

  /** `createIvySettings`. */
  function CreateIvySettings(c: Converter, home: string, alloc: Allocation): (r: Created)
    ensures r.settings.id == alloc.settingsId
    ensures r.settings.defaultCache == Some(ChildPath(home, DEFAULT_CACHE_DIR_NAME))
    ensures r.settings.defaultCacheIvyPattern == Some(DEFAULT_CACHE_IVY_PATTERN)
    ensures r.settings.defaultCacheArtifactPattern == Some(DEFAULT_CACHE_ARTIFACT_PATTERN)
    ensures r.settings.variables == map[LOG_MODULES_VARIABLE := "false"]
    ensures r.settings.resolvers == [] && r.settings.defaultResolver == None
    ensures r.converter.repositoryCacheManager.Some?
    ensures r.settings.defaultCacheManager == r.converter.repositoryCacheManager.value
    ensures r.converter == c.(repositoryCacheManager := r.converter.repositoryCacheManager)
    ensures c.repositoryCacheManager.None? ==> r.settings.defaultCacheManager == alloc.defaultCacheManager
    ensures c.repositoryCacheManager.Some? ==> r.converter == c
  {
    var s := NewSettings(alloc.settingsId, alloc.defaultCacheManager);
    var s1 := s.(
      defaultCache := Some(ChildPath(home, DEFAULT_CACHE_DIR_NAME)),
      defaultCacheIvyPattern := Some(DEFAULT_CACHE_IVY_PATTERN),
      defaultCacheArtifactPattern := Some(DEFAULT_CACHE_ARTIFACT_PATTERN),
      variables := s.variables[LOG_MODULES_VARIABLE := "false"]);
    SetRepositoryCacheManager(c, s1)
  }

  // ---------------------------------------------------------------- registration

  /** The repositories of the repository-backed resolvers in `all`. */
  function RepositoriesOf(all: seq<Resolver>): set<RepositoryId>
    decreases |all|
  {
    if |all| == 0 then {}
    else (if IsRepositoryResolver(all[0]) then {all[0].repository.value} else {}) + RepositoriesOf(all[1..])
  }

  /** The cache managers the resolvers in `all` use under the given default. */
  function ManagersOf(all: seq<Resolver>, default: CacheManagerId): set<CacheManagerId>
    decreases |all|
  {
    if |all| == 0 then {} else {CacheManagerOf(all[0], default)} + ManagersOf(all[1..], default)
  }

  /** The listener was appended to each repository in `repos` that lacked it,
      and no other listener list changed. */
  ghost predicate ListenerAttached(before: World, after: World, listener: ListenerId, repos: set<RepositoryId>) {
    forall repo :: ListenersOf(after, repo) ==
      if repo in repos && listener !in ListenersOf(before, repo) then ListenersOf(before, repo) + [listener]
      else ListenersOf(before, repo)
  }

  /** Every manager in `managers` was given settings `id`; others are unchanged. */
  ghost predicate ManagersBound(before: World, after: World, managers: set<CacheManagerId>, id: SettingsId) {
    && after.cacheSettings.Keys == before.cacheSettings.Keys + managers
    && (forall m :: m in managers ==> after.cacheSettings[m] == id)
    && (forall m :: m in before.cacheSettings && m !in managers ==> after.cacheSettings[m] == before.cacheSettings[m])
  }

  datatype Wiring = Wiring(settings: IvySettings, world: World)

  /** One iteration of `initializeResolvers`. */
  function RegisterResolver(w: Wiring, listener: ListenerId, r: Resolver): Wiring {
    var s := w.settings;
    var cacheSettings := w.world.cacheSettings[CacheManagerOf(r, s.defaultCacheManager) := s.id];
    var listeners :=
      if IsRepositoryResolver(r) && listener !in ListenersOf(w.world, r.repository.value) then
        w.world.listeners[r.repository.value := ListenersOf(w.world, r.repository.value) + [listener]]
      else w.world.listeners;
    Wiring(s.(resolvers := s.resolvers + [r]), World(listeners, cacheSettings))
  }

  /**
    `initializeResolvers`: registers every resolver in order, gives each one's
    cache manager these settings, and attaches the listener to each repository
    that does not already have it.
   */
  function InitializeResolvers(w: Wiring, listener: ListenerId, all: seq<Resolver>): (r: Wiring)
    ensures r.settings == w.settings.(resolvers := w.settings.resolvers + all)
    ensures ListenerAttached(w.world, r.world, listener, RepositoriesOf(all))
    ensures ManagersBound(w.world, r.world, ManagersOf(all, w.settings.defaultCacheManager), w.settings.id)
    decreases |all|
  {
    if |all| == 0 then w
    else
      var w1 := RegisterResolver(w, listener, all[0]);
      var r := InitializeResolvers(w1, listener, all[1..]);
      assert w.settings.resolvers + [all[0]] + all[1..] == w.settings.resolvers + all;
      RegisterStep(w, listener, all[0]);
      ListenerAttachedCompose(w.world, w1.world, r.world, listener, RepositoriesOf([all[0]]), RepositoriesOf(all[1..]));
      assert RepositoriesOf(all) == RepositoriesOf([all[0]]) + RepositoriesOf(all[1..]);
      var d := w.settings.defaultCacheManager;
      ManagersBoundCompose(w.world, w1.world, r.world, {CacheManagerOf(all[0], d)}, ManagersOf(all[1..], d), w.settings.id);
      r
  }

  /** One registration attaches the listener for this resolver's repository
      and binds this resolver's cache manager. */
  lemma RegisterStep(w: Wiring, listener: ListenerId, r: Resolver)
    ensures var w1 := RegisterResolver(w, listener, r);
      && w1.settings == w.settings.(resolvers := w.settings.resolvers + [r])
      && ListenerAttached(w.world, w1.world, listener, RepositoriesOf([r]))
      && ManagersBound(w.world, w1.world, {CacheManagerOf(r, w.settings.defaultCacheManager)}, w.settings.id)
  {
    assert [r][1..] == [];
  }

  lemma ListenerAttachedCompose(a: World, b: World, c: World, listener: ListenerId, xs: set<RepositoryId>, ys: set<RepositoryId>)
    requires ListenerAttached(a, b, listener, xs) && ListenerAttached(b, c, listener, ys)
    ensures ListenerAttached(a, c, listener, xs + ys)
  {
    forall repo
      ensures ListenersOf(c, repo) ==
        if repo in xs + ys && listener !in ListenersOf(a, repo) then ListenersOf(a, repo) + [listener]
        else ListenersOf(a, repo)
    {
      var la, lb := ListenersOf(a, repo), ListenersOf(b, repo);
      if repo in xs && listener !in la {
        assert lb == la + [listener];
        assert listener in lb;
      }
    }
  }

  lemma ManagersBoundCompose(a: World, b: World, c: World, xs: set<CacheManagerId>, ys: set<CacheManagerId>, id: SettingsId)
    requires ManagersBound(a, b, xs, id) && ManagersBound(b, c, ys, id)
    ensures ManagersBound(a, c, xs + ys, id)
  {
  }

  function Occurrences(xs: seq<ListenerId>, x: ListenerId): nat {
    multiset(xs)[x]
  }

  /** After initialization each repository of a registered resolver holds the
      listener exactly once, provided it held it at most once before. */
  lemma ListenerOnce(w: Wiring, listener: ListenerId, all: seq<Resolver>, repo: RepositoryId)
    requires repo in RepositoriesOf(all)
    requires Occurrences(ListenersOf(w.world, repo), listener) <= 1
    ensures Occurrences(ListenersOf(InitializeResolvers(w, listener, all).world, repo), listener) == 1
  {
    var before := ListenersOf(w.world, repo);
    if listener !in before {
      assert multiset(before + [listener]) == multiset(before) + multiset{listener};
    }
  }

  /** Initializing again, with any settings, leaves every listener list as it is. */
  lemma InitializeIdempotent(w: Wiring, w': Wiring, listener: ListenerId, all: seq<Resolver>)
    requires w'.world.listeners == InitializeResolvers(w, listener, all).world.listeners
    ensures forall repo :: ListenersOf(InitializeResolvers(w', listener, all).world, repo) == ListenersOf(w'.world, repo)
  {
    var r := InitializeResolvers(w, listener, all);
    forall repo ensures ListenersOf(InitializeResolvers(w', listener, all).world, repo) == ListenersOf(w'.world, repo) {
      assert ListenersOf(w'.world, repo) == ListenersOf(r.world, repo);
    }
  }

  // ---------------------------------------------------------------- convert

  /** The settings fields `createIvySettings` fills in. */
  predicate Configured(s: IvySettings, home: string, alloc: Allocation) {
    && s.id == alloc.settingsId
    && s.defaultCache == Some(ChildPath(home, DEFAULT_CACHE_DIR_NAME))
    && s.defaultCacheIvyPattern == Some(DEFAULT_CACHE_IVY_PATTERN)
    && s.defaultCacheArtifactPattern == Some(DEFAULT_CACHE_ARTIFACT_PATTERN)
    && s.variables == map[LOG_MODULES_VARIABLE := "false"]
  }

  /** The converter after a build: the first build captures the new settings'
      cache manager, later builds install the captured one. */
  predicate CacheManagerShared(c: Converter, alloc: Allocation, r: Converted) {
    && r.converter.transferListener == c.transferListener
    && r.converter.ivySettings == c.ivySettings
    && (c.repositoryCacheManager.None? ==>
          r.converter.repositoryCacheManager == Some(alloc.defaultCacheManager)
          && r.settings.defaultCacheManager == alloc.defaultCacheManager)
    && (c.repositoryCacheManager.Some? ==>
          r.converter.repositoryCacheManager == c.repositoryCacheManager
          && r.settings.defaultCacheManager == c.repositoryCacheManager.value)
  }

  /** The tail both convert methods share: create the settings, register
      `all` with them and make the outer chain the default resolver. */
  function Assemble(c: Converter, world: World, all: seq<Resolver>, home: string, alloc: Allocation): (r: Converted)
    ensures r.settings.resolvers == all
    ensures r.settings.defaultResolver == Some(CLIENT_MODULE_CHAIN_NAME)
    ensures Configured(r.settings, home, alloc)
    ensures CacheManagerShared(c, alloc, r)
    ensures ListenerAttached(world, r.world, c.transferListener, RepositoriesOf(all))
    ensures ManagersBound(world, r.world, ManagersOf(all, r.settings.defaultCacheManager), r.settings.id)
  {
    var created := CreateIvySettings(c, home, alloc);
    var wired := InitializeResolvers(Wiring(created.settings, world), c.transferListener, all);
    Converted(created.converter, wired.world, wired.settings.(defaultResolver := Some(CLIENT_MODULE_CHAIN_NAME)))
  }

  /** The pipeline both convert methods run: return the set settings if there
      are any; otherwise chain the `chained` resolvers behind the internal one
      and register the `other` resolvers, then the chained ones, then the four
      built ones. */
  function Build(
    c: Converter, world: World, chained: seq<Resolver>, other: seq<Resolver>,
    home: string, internal: Resolver, registry: Registry, alloc: Allocation): Converted
  {
    if c.ivySettings.Some? then Converted(c, world, c.ivySettings.value)
    else
      var userChain := UserResolverChain(chained, internal);
      var clientModule := ClientModuleResolver(registry, userChain);
      var outerChain := OuterChain(userChain, clientModule);
      Assemble(c, world, AllResolvers(chained, other, internal, userChain, clientModule, outerChain), home, alloc)
  }

  /** What a build with no settings set produces. */
  ghost predicate Built(
    c: Converter, world: World, inputs: seq<Resolver>, chained: seq<Resolver>,
    home: string, internal: Resolver, registry: Registry, alloc: Allocation, r: Converted)
  {
    var s := r.settings;
    && Registered(s.resolvers, inputs, chained, internal, registry)
    && s.defaultResolver == Some(s.resolvers[|inputs| + 1].name)
    && Configured(s, home, alloc)
    && CacheManagerShared(c, alloc, r)
    && ListenerAttached(world, r.world, c.transferListener, RepositoriesOf(s.resolvers))
    && ManagersBound(world, r.world, ManagersOf(s.resolvers, s.defaultCacheManager), s.id)
  }

  lemma BuildSpec(
    c: Converter, world: World, chained: seq<Resolver>, other: seq<Resolver>,
    home: string, internal: Resolver, registry: Registry, alloc: Allocation)
    requires c.ivySettings.None?
    ensures Built(c, world, other + chained, chained, home, internal, registry, alloc,
                  Build(c, world, chained, other, home, internal, registry, alloc))
  {
    var userChain := UserResolverChain(chained, internal);
    var clientModule := ClientModuleResolver(registry, userChain);
    var outerChain := OuterChain(userChain, clientModule);
    var all := AllResolvers(chained, other, internal, userChain, clientModule, outerChain);
    var inputs := other + chained;
    var n := |inputs|;
    assert all == inputs + [internal, outerChain, clientModule, userChain];
    assert all[..n] == inputs;
    assert Registered(all, inputs, chained, internal, registry);
  }

  /**
    `convertForPublish`. With settings already set it returns them and changes
    nothing. Otherwise it builds a new settings object whose user chain holds
    only the internal repository, with an empty client-module registry, and
    registers the publish resolvers, the internal repository, the outer chain,
    the client-module resolver and the user chain, in that order. It never
    writes the settings field.
   */
  function ConvertForPublish(
    c: Converter, world: World, publishResolvers: seq<Resolver>,
    home: string, internal: Resolver, alloc: Allocation): (r: Converted)
    ensures c.ivySettings.Some? ==> r == Converted(c, world, c.ivySettings.value)
    ensures r.converter.ivySettings == c.ivySettings
    ensures c.ivySettings.None? ==> Built(c, world, publishResolvers, [], home, internal, map[], alloc, r)
  {
    var r := Build(c, world, [], publishResolvers, home, internal, map[], alloc);
    if c.ivySettings.Some? then r
    else
      BuildSpec(c, world, [], publishResolvers, home, internal, map[], alloc);
      assert publishResolvers + [] == publishResolvers;
      r
  }

  /**
    `convertForResolve`. With settings already set it returns them and changes
    nothing. Otherwise it chains the dependency resolvers behind the internal
    repository, puts the client-module resolver for `registry` in front, and
    registers the dependency resolvers, the internal repository, the outer
    chain, the client-module resolver and the user chain, in that order. It
    never writes the settings field.
   */
  function ConvertForResolve(
    c: Converter, world: World, dependencyResolvers: seq<Resolver>,
    home: string, internal: Resolver, registry: Registry, alloc: Allocation): (r: Converted)
    ensures c.ivySettings.Some? ==> r == Converted(c, world, c.ivySettings.value)
    ensures r.converter.ivySettings == c.ivySettings
    ensures c.ivySettings.None? ==>
      Built(c, world, dependencyResolvers, dependencyResolvers, home, internal, registry, alloc, r)
  {
    var r := Build(c, world, dependencyResolvers, [], home, internal, registry, alloc);
    if c.ivySettings.Some? then r
    else
      BuildSpec(c, world, dependencyResolvers, [], home, internal, registry, alloc);
      assert [] + dependencyResolvers == dependencyResolvers;
      r
  }

  // ---------------------------------------------------------------- properties across calls

  /** The client-module resolver is always asked before the user chain, and it
      falls back to that same chain. */
  lemma ClientModuleComesFirst(
    c: Converter, world: World, deps: seq<Resolver>, home: string, internal: Resolver,
    registry: Registry, alloc: Allocation)
    requires c.ivySettings.None?
    ensures var s := ConvertForResolve(c, world, deps, home, internal, registry, alloc).settings;
      var outer := s.resolvers[|deps| + 1];
      && outer.members[0].ClientModule?
      && outer.members[0].registry == registry
      && outer.members[0].fallback == outer.members[1]
      && outer.members[1].members[0] == internal
  {
  }

  /** Settings installed with `setIvySettings` are what both convert methods
      return from then on, whatever their arguments. */
  lemma SetSettingsPins(
    c: Converter, s: IvySettings, world: World, rs: seq<Resolver>, home: string,
    internal: Resolver, registry: Registry, alloc: Allocation)
    ensures ConvertForResolve(SetIvySettings(c, Some(s)), world, rs, home, internal, registry, alloc).settings == s
    ensures ConvertForPublish(SetIvySettings(c, Some(s)), world, rs, home, internal, alloc).settings == s
  {
  }

  /**
    Without `setIvySettings` nothing is memoized: a second convert builds a
    second settings object, a different one when the second allocation is
    fresh. Both share the cache manager the first build
    captured, and the captured manager does not change.
   */
  lemma SuccessiveBuilds(
    c: Converter, world: World, deps: seq<Resolver>, pubs: seq<Resolver>, home: string,
    internal: Resolver, registry: Registry, alloc1: Allocation, alloc2: Allocation)
    requires c.ivySettings.None? && c.repositoryCacheManager.None?
    requires alloc1.settingsId != alloc2.settingsId
    ensures var r1 := ConvertForResolve(c, world, deps, home, internal, registry, alloc1);
      var r2 := ConvertForPublish(r1.converter, r1.world, pubs, home, internal, alloc2);
      && r1.settings != r2.settings
      && r1.settings.id == alloc1.settingsId
      && r2.settings.id == alloc2.settingsId
      && r1.settings.defaultCacheManager == alloc1.defaultCacheManager
      && r2.settings.defaultCacheManager == alloc1.defaultCacheManager
      && r2.converter.repositoryCacheManager == Some(alloc1.defaultCacheManager)
  {
  }

  /** `getIvySettings` reads only what `setIvySettings` wrote: a new converter
      has none, and neither convert call changes what the getter returns. */
  lemma GetIvySettingsAfterConvert(
    c: Converter, world: World, deps: seq<Resolver>, pubs: seq<Resolver>, home: string,
    internal: Resolver, registry: Registry, alloc: Allocation, listener: ListenerId, s: Option<IvySettings>)
    ensures GetIvySettings(New(listener)) == None
    ensures GetIvySettings(SetIvySettings(c, s)) == s
    ensures GetIvySettings(ConvertForResolve(c, world, deps, home, internal, registry, alloc).converter) == GetIvySettings(c)
    ensures GetIvySettings(ConvertForPublish(c, world, pubs, home, internal, alloc).converter) == GetIvySettings(c)
  {
  }

  /** Building twice attaches the listener to a repository no more than once. */
  lemma RebuildAttachesOnce(
    c: Converter, world: World, deps: seq<Resolver>, home: string, internal: Resolver,
    registry: Registry, alloc1: Allocation, alloc2: Allocation, repo: RepositoryId)
    requires c.ivySettings.None?
    requires repo in RepositoriesOf(deps + [internal])
    requires c.transferListener !in ListenersOf(world, repo)
    ensures var r1 := ConvertForResolve(c, world, deps, home, internal, registry, alloc1);
      var r2 := ConvertForResolve(r1.converter, r1.world, deps, home, internal, registry, alloc2);
      && ListenersOf(r1.world, repo) == ListenersOf(world, repo) + [c.transferListener]
      && ListenersOf(r2.world, repo) == ListenersOf(r1.world, repo)
  {
    var l := c.transferListener;
    var r1 := ConvertForResolve(c, world, deps, home, internal, registry, alloc1);
    RegisteredCoversInputs(r1.settings.resolvers, deps, deps, internal, registry);
    assert ListenersOf(r1.world, repo) == ListenersOf(world, repo) + [l];
    var r2 := ConvertForResolve(r1.converter, r1.world, deps, home, internal, registry, alloc2);
    RegisteredCoversInputs(r2.settings.resolvers, deps, deps, internal, registry);
    assert l in ListenersOf(r1.world, repo);
  }

  /** The repositories of the inputs and of the internal resolver are among
      those of a registered list. */
  lemma RegisteredCoversInputs(list: seq<Resolver>, inputs: seq<Resolver>, chained: seq<Resolver>, internal: Resolver, registry: Registry)
    requires Registered(list, inputs, chained, internal, registry)
    ensures RepositoriesOf(inputs + [internal]) <= RepositoriesOf(list)
  {
    var n := |inputs|;
    assert list == (inputs + [internal]) + list[n + 1..];
    RepositoriesOfAppend(inputs + [internal], list[n + 1..]);
  }

  lemma {:induction false} RepositoriesOfAppend(a: seq<Resolver>, b: seq<Resolver>)
    ensures RepositoriesOf(a + b) == RepositoriesOf(a) + RepositoriesOf(b)
    decreases |a|
  {
    if |a| > 0 {
      assert (a + b)[0] == a[0];
      assert (a + b)[1..] == a[1..] + b;
      RepositoriesOfAppend(a[1..], b);
    } else {
      assert a + b == b;
    }
  }
}
