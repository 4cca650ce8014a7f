/**
 * The stubs of SFSE/Stub.h: the process-wide interface pointer captured by
 * `Init`, the accessors that query host capabilities through it, and
 * `AllocTrampoline`, which picks where hook memory comes from.
 *
 * `FATAL` ends the process; here it is an outcome (`Init` returns `true`,
 * `AllocTrampoline` yields `Fatal`) after which nothing else happens. The two
 * allocators `AllocTrampoline` may call (the host's branch pool and the local
 * page allocator) are foreign code and are parameters: each is a function
 * from its arguments to an address, null meaning failure.
 */
module Stubs {
  import opened Abi
  import opened Host

  datatype Option<T> = None | Some(value: T)

  /** What `AllocTrampoline` ends with: a region of hook memory, or the fatal stop. */
  datatype AllocOutcome = Allocated(mem: Ptr) | Fatal

  /**
   * One call of `AllocTrampoline`: whether the branch pool was asked, whether
   * the fallback warning was logged, whether the local allocator was asked,
   * and the outcome.
   */
  datatype AllocRun = AllocRun(poolTried: bool, warned: bool, localTried: bool, outcome: AllocOutcome)

  /** `AllocateFromBranchPool` of the trampoline interface: (interface, plugin handle, size) to an address. */
  type BranchPool = (Ptr, PluginHandle, Size) -> Ptr

  /** `PageAlloc` of the local trampoline: size to an address. */
  type PageAllocator = Size -> Ptr

  /** The plugin's process-wide state: `detail::storage` and the static `LoadInterface::HANDLE`. */
  class Globals {
    /** `detail::storage`; `None` is the null pointer it starts as. */
    var storage: Option<SFSEInterface>
    /** `LoadInterface::HANDLE`. */
    var handle: PluginHandle

    /** Load time, before `Init`: no interface, and the handle `static_cast<PluginHandle>(-1)`. */
    constructor ()
      ensures storage == None
      ensures handle == ToUint32(-1) == 0xFFFF_FFFF
    {
      storage := None;
      handle := ToUint32(-1);
    }

    /**
     * Stores the interface the host passed in and caches the plugin handle it
     * reports. A null interface is fatal and changes nothing.
     */
    method Init(intfc: Option<SFSEInterface>) returns (fatal: bool)
      modifies this
      ensures fatal <==> intfc == None
      ensures fatal ==> storage == old(storage) && handle == old(handle)
      ensures !fatal ==> storage == intfc && handle == intfc.value.GetPluginHandle()
    {
      if intfc == None {
        return true;
      }
      storage := intfc;
      handle := storage.value.GetPluginHandle();
      return false;
    }

    /** The interface `Init` stored, or `None` before `Init`: no copy and no query. */
    function GetLoadInterface(): Option<SFSEInterface>
      reads this
    {
      storage
    }

    /** Asks the host for capability `kMessaging` (1), although the result is used as the trampoline interface. */
    function GetTrampolineInterface(): (r: Ptr)
      reads this
      requires storage.Some?
      ensures kMessaging !in storage.value.services ==> r == Null
      ensures kMessaging in storage.value.services ==> r == storage.value.services[kMessaging]
      ensures r != Null ==> kMessaging in storage.value.services && r == storage.value.services[kMessaging]
    {
      storage.value.QueryInterface(kMessaging)
    }

    /** Asks the host for capability `kTrampoline` (2), although the result is used as the messaging interface. */
    function GetMessagingInterface(): (r: Ptr)
      reads this
      requires storage.Some?
      ensures kTrampoline !in storage.value.services ==> r == Null
      ensures kTrampoline in storage.value.services ==> r == storage.value.services[kTrampoline]
      ensures r != Null ==> kTrampoline in storage.value.services && r == storage.value.services[kTrampoline]
    {
      storage.value.QueryInterface(kTrampoline)
    }

    /**
     * Hook memory of `size` bytes: from the host's branch pool when the
     * trampoline interface exists and the caller opted in, else (or when the
     * pool returns null, after a warning) from the local page allocator; when
     * that returns null too, the process stops. As in the header, a caller
     * that does not pass `useSFSEReserve` opts in to the branch pool.
     */
    function AllocTrampoline(size: Size, pool: BranchPool, local: PageAllocator, useSFSEReserve: bool := true): (run: AllocRun)
      reads this
      requires storage.Some?
      ensures run.poolTried <==> GetTrampolineInterface() != Null && useSFSEReserve
      ensures run.warned <==> run.poolTried && pool(GetTrampolineInterface(), handle, size) == Null
      ensures run.localTried <==> !run.poolTried || run.warned
      ensures run.poolTried && !run.warned ==> run.outcome == Allocated(pool(GetTrampolineInterface(), handle, size))
      ensures run.localTried ==> run.outcome == (if local(size) != Null then Allocated(local(size)) else Fatal)
    {
      var intfc := GetTrampolineInterface();
      var poolTried := intfc != Null && useSFSEReserve;
      var fromPool := if poolTried then pool(intfc, handle, size) else Null;
      if fromPool != Null then
        AllocRun(true, false, false, Allocated(fromPool))
      else
        var mem := local(size);
        AllocRun(poolTried, poolTried, true, if mem != Null then Allocated(mem) else Fatal)
    }
  }

  /** `AllocTrampoline` never hands out null: it returns usable memory or stops the process. */
  lemma AllocNeverReturnsNull(g: Globals, size: Size, useSFSEReserve: bool, pool: BranchPool, local: PageAllocator)
    requires g.storage.Some?
    ensures var run := g.AllocTrampoline(size, pool, local, useSFSEReserve);
            run.outcome.Allocated? ==> run.outcome.mem != Null
  {
  }

  /** The stop is reached exactly when every allocator that was asked returned null. */
  lemma AllocFatalIffAllFailed(g: Globals, size: Size, useSFSEReserve: bool, pool: BranchPool, local: PageAllocator)
    requires g.storage.Some?
    ensures var run := g.AllocTrampoline(size, pool, local, useSFSEReserve);
            (run.outcome == Fatal) <==>
              (local(size) == Null && (!run.poolTried || pool(g.GetTrampolineInterface(), g.handle, size) == Null))
  {
  }

  /**
   * Because of the swapped ids, whether the branch pool is used depends on the
   * host offering capability `kMessaging`, and a host that offers only
   * `kTrampoline` never gets asked. The calls leave `useSFSEReserve` at its
   * default, which opts in.
   */
  lemma PoolUseFollowsMessagingCapability(g: Globals, size: Size, pool: BranchPool, local: PageAllocator)
    requires g.storage.Some?
    ensures var s := g.storage.value.services;
            g.AllocTrampoline(size, pool, local).poolTried <==> kMessaging in s && s[kMessaging] != Null
    ensures var s := g.storage.value.services;
            kMessaging !in s ==> !g.AllocTrampoline(size, pool, local).poolTried
  {
  }

  /** Opting out of the host's reserve always takes memory from the local allocator. */
  lemma OptOutUsesLocal(g: Globals, size: Size, pool: BranchPool, local: PageAllocator)
    requires g.storage.Some?
    ensures var run := g.AllocTrampoline(size, pool, local, false);
            !run.poolTried && !run.warned && run.localTried
            && run.outcome == (if local(size) != Null then Allocated(local(size)) else Fatal)
  {
  }

  /**
   * Loading against any host and reading what the header offers: the load
   * interface is the host's, the cached handle and the version accessors give
   * the host's values, the trampoline accessor returns what the host registered
   * as messaging (id 1), and the messaging accessor what it registered as
   * trampoline (id 2). Looking up another plugin by `name` gives the host's
   * entry for it, or null when the host knows none by that name.
   */
  method LoadAndQuery(host: SFSEInterface, name: seq<Byte>)
    returns (load: Option<SFSEInterface>, handle: PluginHandle, runtime: uint32, sfse: uint32,
             trampoline: Ptr, messaging: Ptr, info: Ptr)
    ensures load == Some(host)
    ensures handle == host.pluginHandle
    ensures runtime == host.runtimeVersion && sfse == host.sfseVersion
    ensures trampoline == (if kMessaging in host.services then host.services[kMessaging] else Null)
    ensures messaging == (if kTrampoline in host.services then host.services[kTrampoline] else Null)
    ensures info == (if name in host.pluginInfo then host.pluginInfo[name] else Null)
  {
    var g := new Globals();
    var fatal := g.Init(Some(host));
    load := g.GetLoadInterface();
    handle := g.handle;
    runtime := load.value.RuntimeVersion();
    sfse := load.value.SFSEVersion();
    trampoline := g.GetTrampolineInterface();
    messaging := g.GetMessagingInterface();
    info := load.value.GetPluginInfo(name);
  }
}
