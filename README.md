# SFSE plugin stub, modelled in Dafny

This project models `SFSE/Stub.h` of the Starfield plugin template. That header
is the glue between a plugin DLL and the Starfield Script Extender (SFSE), the
host that loads it. It has three parts with behaviour worth stating:

- `PluginVersionData`, the fixed-layout descriptor the plugin exports. The host
  reads it by raw byte offsets before any plugin code runs. Its setters write
  the plugin version, two null-terminated 256-byte names, two 0/1 flag words, a
  list of compatible runtime versions and the minimum loader version. Three
  members are constants.
- `Init` and the capability accessors. `Init` captures the interface pointer the
  host passes at load time and caches the plugin handle. The accessors then ask
  the host for the messaging and trampoline services by capability id.
- `AllocTrampoline`, which finds memory for code hooks. It tries the host's
  branch pool if that is available and wanted. Otherwise, or when the pool
  fails, it uses a local page allocator. If that fails too, the process stops.

Modules, one file each:

| file | module | what it holds |
|---|---|---|
| `abi.dfy` | `Abi` | 32/64-bit unsigned integers, bytes, null pointers, the C++ `bool` and `int` to `uint32` conversions, and little-endian words (the host is x86-64) |
| `layout.dfy` | `Layout` | the descriptor's offsets and size by the C++ placement rule and as packed prefix sums, checked against the header's `static_assert`s |
| `versiondata.dfy` | `VersionData` | the descriptor as a value (`Record`), one specification function per setter, the byte image the host reads, and the class `PluginVersionData` over arrays whose methods update it in place |
| `host.dfy` | `Host` | the capability ids and the host's interface table |
| `stubs.dfy` | `Stubs` | the global state (`Globals`: `detail::storage` and `LoadInterface::HANDLE`), `Init`, the accessors and `AllocTrampoline` |

Each `PluginVersionData` method is proved against the matching `With...`
function of the old value, so its contract names every cell that changes.
The lemmas about those functions carry the properties: names are read back
intact, nothing of an earlier name survives, and the flag setters are
negations of each other. Each setter also rewrites only the bytes of its own
member in the image the host reads.

Notes on the code as written:

- `CompatibleVersions` asserts `size < std::size(compatibleVersions) - 1`, so a
  list holds at most 14 entries, although one terminator slot would need only
  one free slot. The last two slots are never written and stay zero
  (`VersionData.Wf`).
- `GetTrampolineInterface` queries capability id 1 (`kMessaging`), and
  `GetMessagingInterface` queries id 2 (`kTrampoline`). The model keeps the ids
  as written. `Stubs.LoadAndQuery` and `Stubs.PoolUseFollowsMessagingCapability`
  spell out the consequence: the branch pool is asked only when the host offers
  capability 1.
- `CompatibleVersions` copies the new list over the front of the array and does
  not clear the rest. A second, shorter call therefore leaves entries from the
  first call visible to the host (`VersionData.StaleVersionsRemainVisible`,
  with the instance `VersionData.StaleVersionsExample`).
- `Init` has no write-once guard. A second call overwrites the stored
  interface, as in the source.

`addressIndependence` and `structureIndependence` have no initialiser of their
own. The model assumes a value-initialised descriptor (`PluginVersionData v{}`),
in which both are zero.

## Model

| member | source | states |
|---|---|---|
| `Layout.NoPadding` | Plugin/include/SFSE/Stub.h:126-135 | the compiler's placement of each member (next offset aligned for its type) equals the packed prefix sum of the sizes before it: the struct has no padding |
| `Layout.LayoutMatchesStaticAsserts` | Plugin/include/SFSE/Stub.h:147-157 | every member offset is the one the `static_assert`s state (0x000 … 0x258), and `sizeof` is 0x25C, the packed total |
| `Layout.FieldsDisjoint` | Plugin/include/SFSE/Stub.h:126-135 | two distinct members never share a byte |
| `Layout.PackedOrdered` | Plugin/include/SFSE/Stub.h:126-135 | members occupy increasing byte ranges in declaration order |
| `Layout.OffsetsWordAligned` | Plugin/include/SFSE/Stub.h:147-157 | every offset and the total size are multiples of 4 |
| `Abi.BoolToUint32` | Plugin/include/SFSE/Stub.h:115-118 | a `bool` stored into a `uint32` member is 1 for true and 0 for false |
| `Abi.ToUint32` | Plugin/include/SFSE/Stub.h:14 | `static_cast` of an integer to a 32-bit unsigned handle reduces it modulo 2^32, so -1 becomes 0xFFFFFFFF |
| `VersionData.Default` | Plugin/include/SFSE/Stub.h:126-135 | the value-initialised descriptor is well formed: `dataVersion` is `kVersion`, the reserved words are 0, and names and version list are all zero |
| `VersionData.NulPadded` | Plugin/include/SFSE/Stub.h:138-145 | what `SetCharBuffer` leaves fills the whole buffer, starts with the source string and ends in NUL |
| `VersionData.PaddingPreservesCString` | Plugin/include/SFSE/Stub.h:138-145 | the zero padding never changes the null-terminated string the host reads |
| `VersionData.NameReadBack` | Plugin/include/SFSE/Stub.h:138-145 | a string without NUL bytes that is shorter than the buffer is read back by the host unchanged |
| `VersionData.NamesReadBack` | Plugin/include/SFSE/Stub.h:113-114 | after `PluginName(s)` or `AuthorName(s)` the host reads `s` from that buffer, and the other name buffer is unchanged |
| `VersionData.NameSettersLeaveNoResidue` | Plugin/include/SFSE/Stub.h:138-145 | setting a name twice equals setting it once to the second value, so nothing of the first value survives; setting the same name twice is idempotent |
| `VersionData.NegatedFlagSetters` | Plugin/include/SFSE/Stub.h:115-118 | `UsesSigScanning(b)` gives the same descriptor as `UsesAddressLibrary(!b)`, and `HasNoStructUse(b)` the same as `IsLayoutDependent(!b)`; the positive setters store 1 exactly when `b` holds |
| `VersionData.SettersPreserveWf` | Plugin/include/SFSE/Stub.h:112-135 | every setter keeps the invariant: `dataVersion == 1`, both reserved words 0, both names NUL-terminated, version slots 14 and 15 zero |
| `VersionData.VersionListAfterSet` | Plugin/include/SFSE/Stub.h:119-123 | after `CompatibleVersions(vs)` on a descriptor whose slot just past the new entries is zero, the host reads exactly `vs` (no entry of `vs` being 0) |
| `VersionData.VersionListBounded` | Plugin/include/SFSE/Stub.h:121 | in every well-formed descriptor the host reads at most 14 compatible versions |
| `VersionData.StaleVersionsRemainVisible` | Plugin/include/SFSE/Stub.h:119-123 | for every well-formed descriptor and zero-free list, the host reads the new list followed by what the old slots from its length on read as: `CompatibleVersions` does not clear later slots |
| `VersionData.StaleVersionsExample` | Plugin/include/SFSE/Stub.h:119-123 | an instance: setting `[7, 8]` and then `[9]` makes the host read `[9, 8]` |
| `VersionData.TakeUntilAppend` | Plugin/include/SFSE/Stub.h:132 | a list without the terminator, placed in front of a tail, reads as the list followed by what the tail reads as |
| `VersionData.EncodeAt` | Plugin/include/SFSE/Stub.h:147-157 | in the byte image of a well-formed descriptor, each member's bytes sit at the offset the `static_assert`s state |
| `VersionData.EncodeSplit` | Plugin/include/SFSE/Stub.h:147-157 | the image is the bytes before a member, that member's bytes, then the bytes after it, and the prefix is exactly the member's offset long |
| `VersionData.EncodeDiffersOnlyAt` | Plugin/include/SFSE/Stub.h:147-157 | two descriptors that differ only in one member have images that differ only in that member's byte range |
| `VersionData.ImageLength` | Plugin/include/SFSE/Stub.h:157 | the byte image of a well-formed descriptor is 0x25C bytes long |
| `VersionData.PluginNameBytes` | Plugin/include/SFSE/Stub.h:113 | `PluginName(s)` rewrites bytes 0x008..0x108 with `s` padded by NUL and leaves every other byte of the image |
| `VersionData.AuthorNameBytes` | Plugin/include/SFSE/Stub.h:114 | `AuthorName(s)` rewrites bytes 0x108..0x208 with `s` padded by NUL and leaves every other byte |
| `VersionData.AddressFlagBytes` | Plugin/include/SFSE/Stub.h:115-116 | the address flag setters rewrite only the word at 0x208, with 1 or 0 (negated for `UsesSigScanning`) |
| `VersionData.StructureFlagBytes` | Plugin/include/SFSE/Stub.h:117-118 | the structure flag setters rewrite only the word at 0x20C, with 1 or 0 (negated for `HasNoStructUse`) |
| `VersionData.CompatibleVersionsBytes` | Plugin/include/SFSE/Stub.h:119-123 | `CompatibleVersions(vs)` rewrites only the first 4·n bytes at 0x210 (n the number of entries) with the entries of `vs` |
| `VersionData.VersionSlotsBytes` | Plugin/include/SFSE/Stub.h:132 | replacing the version array rewrites only bytes 0x210..0x250 |
| `VersionData.VersionWordBytes` | Plugin/include/SFSE/Stub.h:112-124 | `PluginVersion(v)` rewrites only the word at 0x004, and `MinimumRequiredXSEVersion(v)` only the word at 0x250 |
| `VersionData.ConstantBytes` | Plugin/include/SFSE/Stub.h:126-135 | in every well-formed image, the word at 0x000 is 1 (its bytes read back as `kVersion`) and bytes 0x254..0x25C are zero |
| `VersionData.PluginVersionData.constructor` | Plugin/include/SFSE/Stub.h:126-135 | a new descriptor has the value-initialised contents and three separate fresh arrays |
| `VersionData.PluginVersionData.PluginVersion` | Plugin/include/SFSE/Stub.h:112 | only `pluginVersion` changes, to `v` |
| `VersionData.PluginVersionData.PluginName` | Plugin/include/SFSE/Stub.h:113 | requires the name to be shorter than 256 bytes; only the `pluginName` array changes, to the name padded with NUL; `author` is unchanged |
| `VersionData.PluginVersionData.AuthorName` | Plugin/include/SFSE/Stub.h:114 | requires the name to be shorter than 256 bytes; only the `author` array changes, to the name padded with NUL; `pluginName` is unchanged |
| `VersionData.PluginVersionData.UsesSigScanning` | Plugin/include/SFSE/Stub.h:115 | only `addressIndependence` changes, to 1 when `b` is false and 0 when it is true |
| `VersionData.PluginVersionData.UsesAddressLibrary` | Plugin/include/SFSE/Stub.h:116 | only `addressIndependence` changes, to 1 when `b` is true and 0 when it is false |
| `VersionData.PluginVersionData.HasNoStructUse` | Plugin/include/SFSE/Stub.h:117 | only `structureIndependence` changes, to the negation of `b` as 0 or 1 |
| `VersionData.PluginVersionData.IsLayoutDependent` | Plugin/include/SFSE/Stub.h:118 | only `structureIndependence` changes, to `b` as 0 or 1 |
| `VersionData.PluginVersionData.CompatibleVersions` | Plugin/include/SFSE/Stub.h:119-123 | requires fewer than 15 entries; each slot `k` below the number of entries n becomes `vs[k]`; slots n to 15 keep their old values; nothing else changes |
| `VersionData.PluginVersionData.MinimumRequiredXSEVersion` | Plugin/include/SFSE/Stub.h:124 | only `xseMinimum` changes, to `v` |
| `VersionData.PluginVersionData.SetCharBuffer` | Plugin/include/SFSE/Stub.h:138-145 | requires the source to be shorter than the buffer; the buffer afterwards holds the source followed by NUL bytes, whatever it held before |
| `VersionData.DeclareExample` | Plugin/include/SFSE/Stub.h:112-123 | a descriptor built by a sequence of setter calls has the name, flags and version list the host then reads |
| `Stubs.Globals.constructor` | Plugin/include/SFSE/Stub.h:14 | before `Init` the stored interface is null and `HANDLE` is `static_cast<PluginHandle>(-1)` = 0xFFFFFFFF |
| `Stubs.Globals.Init` | Plugin/include/SFSE/Stub.h:52-60 | a null interface is fatal and changes nothing; otherwise the interface is stored and `HANDLE` becomes the handle the host reports |
| `Stubs.Globals.AllocTrampoline` | Plugin/include/SFSE/Stub.h:74-98 | the branch pool is asked exactly when the trampoline interface is non-null and the caller opted in; a non-null pool result is returned and the local allocator is not asked; the warning is logged exactly when the pool was asked and returned null; otherwise the local result is returned, or the run is fatal when it is null |
| `Stubs.AllocNeverReturnsNull` | Plugin/include/SFSE/Stub.h:87-97 | `AllocTrampoline` never yields a null region: it returns memory or stops |
| `Stubs.AllocFatalIffAllFailed` | Plugin/include/SFSE/Stub.h:74-98 | the run is fatal exactly when the local allocator returned null and the pool was either not asked or returned null |
| `Stubs.OptOutUsesLocal` | Plugin/include/SFSE/Stub.h:74-98 | with `a_useSFSEReserve` false the pool is never asked and no warning is logged: the local allocator decides |
| `Stubs.PoolUseFollowsMessagingCapability` | Plugin/include/SFSE/Stub.h:63-66 | with the ids as written and `a_useSFSEReserve` left at its default (`true`), the branch pool is asked exactly when the host offers a non-null service under id 1 (`kMessaging`) |
| `Stubs.Globals.GetTrampolineInterface` | Plugin/include/SFSE/Stub.h:63-66 | queries id 1 (`kMessaging`): null when the host offers no service 1, and the host's service 1 when it does |
| `Stubs.Globals.GetMessagingInterface` | Plugin/include/SFSE/Stub.h:67-70 | queries id 2 (`kTrampoline`): null when the host offers no service 2, and the host's service 2 when it does |
| `Stubs.LoadAndQuery` | Plugin/include/SFSE/Stub.h:25-70 | covers the header's `RuntimeVersion`, `SFSEVersion` and `GetPluginHandle` (lines 25-27), the forwarders `GetPluginInfo` and `QueryInterface` (lines 28-33) and `GetLoadInterface` (line 62): after `Init` on any host, the load interface is that host, the cached handle and both versions are the host's values, a plugin lookup by name gives the host's entry or null when the name is unknown, `GetTrampolineInterface` returns what the host registered under id 1 and `GetMessagingInterface` what it registered under id 2 |

## Left out

- Process termination (`FATAL`) and logging (`WARN`) are outcomes in the model. `Init` returns a flag and `AllocTrampoline` returns `Fatal` and a `warned` bit. The message texts are not modelled.
- The branch pool (`AllocateFromBranchPool`) and the local page allocator (`GetTrampoline().PageAlloc`, from the hooking library) are foreign code. They are function parameters that return an address or null. `GetTrampoline` itself (line 72) only returns that library's singleton and has no member of its own.
- Stubs.Globals.AllocTrampoline: does not state that the region holds at least `a_size` bytes, because the allocators are abstract and their results carry no size.
- The header's `RuntimeVersion`, `SFSEVersion`, `GetPluginHandle`, `GetPluginInfo` and `QueryInterface` (lines 25-33) only read the host's interface or forward to it (`PluginAPI.h` is not part of this model). The model reads the host's fields and tables from the `SFSEInterface` value; the lookups are plain helpers, stated through `Stubs.LoadAndQuery` and the two capability accessors.
- `PluginHandle` is taken to be a 32-bit unsigned integer, as the host's API declares it.
- `std::bit_cast`, `std::launder` and the `__cdecl` calling convention are pointer and ABI mechanics. The `assert(this)` in `GetProxy` is kept as `requires storage.Some?` on `GetTrampolineInterface`, `GetMessagingInterface` and `AllocTrampoline`. An interface pointer is an `Option` of the table value, and the typed service pointers are addresses.
- The byte image assumes a little-endian host (x86-64).
- The debug `assert`s in `CompatibleVersions` (line 121) and `SetCharBuffer` (line 142) are modelled as preconditions (`requires |vs| < VersionListLimit`, `requires |src| < dst.Length`). The model does not describe a build with `NDEBUG`, where the assert is gone. There, a 15-entry list would still leave slot 15 as the terminator, a 16-entry list would leave none, and a longer one would write past the array. A 256-byte name would leave no terminator, and a longer one would write past the buffer.
- The thread-safety of the global state is not modelled. The model is single-threaded, as the header assumes.
