/**
 * The host side of `SFSE::LoadInterface`: the capability ids the header
 * declares and the host's interface table, which the plugin only reads.
 * The host's own lookups (`QueryInterface`, `GetPluginInfo`) are foreign code;
 * they are modelled by the tables they consult.
 */
module Host {
  import opened Abi

  /** The anonymous enum of `LoadInterface`: capability ids. */
  const kInvalid: uint32 := 0
  const kMessaging: uint32 := 1
  const kTrampoline: uint32 := 2
  const kTotal: uint32 := 3

  /** What the host hands the plugin at load time, as far as the header uses it. */
  datatype SFSEInterface = SFSEInterface(
    sfseVersion: uint32,
    runtimeVersion: uint32,
    pluginHandle: PluginHandle,
    pluginInfo: map<seq<Byte>, Ptr>,
    services: map<uint32, Ptr>)
  {
    /** The runtime version the host reports, read from its interface. */
    function RuntimeVersion(): uint32 {
      runtimeVersion
    }

    /** The loader version the host reports, read from its interface. */
    function SFSEVersion(): uint32 {
      sfseVersion
    }

    /** The handle the host assigned to this plugin. */
    function GetPluginHandle(): PluginHandle {
      pluginHandle
    }

    /** Metadata of another loaded plugin by name; null when the host knows none by that name. */
    function GetPluginInfo(name: seq<Byte>): Ptr {
      if name in pluginInfo then pluginInfo[name] else Null
    }

    /** The service registered under capability `id`; null for an id the host does not offer. */
    function QueryInterface(id: uint32): Ptr {
      if id in services then services[id] else Null
    }
  }
}
