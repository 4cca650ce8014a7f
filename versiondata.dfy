/**
 * `SFSE::PluginVersionData`: the fixed-layout descriptor a plugin exports and
 * the host reads by raw memory layout.
 *
 * `Record` is the value of the descriptor, with one function per setter
 * (`With...`) saying what that setter leaves behind; `Encode` is the byte
 * image the host reads. The class `PluginVersionData` holds the two name
 * buffers and the version list as arrays and updates them in place, as the
 * C++ struct does; each of its methods is proved to take `Value()` exactly to
 * the matching `With...` function of the old value.
 */
module VersionData {
  import opened Abi
  import opened Layout

  /** `PluginVersionData::kVersion`, the format version the host expects in `dataVersion`. */
  const kVersion: uint32 := 1

  /** Capacity of each name buffer, `char[256]`. */
  const NameCapacity: nat := 256

  /** Capacity of `compatibleVersions`, `std::uint32_t[16]`. */
  const VersionSlots: nat := 16

  /** `CompatibleVersions` asserts that the list is shorter than this (16 - 1). */
  const VersionListLimit: nat := VersionSlots - 1

  datatype Record = Record(
    dataVersion: uint32,
    pluginVersion: uint32,
    pluginName: seq<Byte>,
    author: seq<Byte>,
    addressIndependence: uint32,
    structureIndependence: uint32,
    compatibleVersions: seq<uint32>,
    xseMinimum: uint32,
    reservedNonBreaking: uint32,
    reservedBreaking: uint32)

  /**
   * What holds of every descriptor the setters can produce: the constant
   * members keep their initial values, the arrays have their fixed sizes, both
   * names end in a NUL byte, and the last two version slots, which no call of
   * `CompatibleVersions` can reach, stay zero.
   */
  ghost predicate Wf(r: Record) {
    && r.dataVersion == kVersion
    && r.reservedNonBreaking == 0
    && r.reservedBreaking == 0
    && |r.pluginName| == NameCapacity
    && |r.author| == NameCapacity
    && |r.compatibleVersions| == VersionSlots
    && r.pluginName[NameCapacity - 1] == NUL
    && r.author[NameCapacity - 1] == NUL
    && r.compatibleVersions[VersionListLimit - 1] == 0
    && r.compatibleVersions[VersionListLimit] == 0
  }

  /**
   * A value-initialised descriptor (`PluginVersionData v{}`): every member that
   * has no initialiser of its own is zero.
   */
  function Default(): (r: Record)
    ensures Wf(r)
  {
    Record(kVersion, 0, seq(NameCapacity, _ => NUL), seq(NameCapacity, _ => NUL), 0, 0,
           seq(VersionSlots, _ => 0), 0, 0, 0)
  }

  // ---------------------------------------------------------------------------
  // Name buffers

  /** The contents `SetCharBuffer` leaves in an `n`-byte buffer: `s`, then NUL bytes. */
  function NulPadded(s: seq<Byte>, n: nat): (b: seq<Byte>)
    requires |s| < n
    ensures |b| == n
    ensures b[..|s|] == s
    ensures b[n - 1] == NUL
  {
    s + seq(n - |s|, _ => NUL)
  }

  /** The elements of `s` before the first occurrence of `stop`. */
  function TakeUntil<T(==)>(s: seq<T>, stop: T): (p: seq<T>)
    ensures |p| <= |s| && p == s[..|p|]
    ensures stop !in p
    ensures |p| < |s| ==> s[|p|] == stop
  {
    if s == [] || s[0] == stop then [] else [s[0]] + TakeUntil(s[1..], stop)
  }

  /** The string the host reads from a null-terminated `char` buffer. */
  function CString(b: seq<Byte>): seq<Byte> {
    TakeUntil(b, NUL)
  }

  /** The version list the host reads: the slots before the first zero. */
  function VersionList(slots: seq<uint32>): seq<uint32> {
    TakeUntil(slots, 0)
  }

  /** `TakeUntil` is determined by its postcondition: a stop-free prefix followed by `stop` or the end. */
  lemma TakeUntilUnique<T>(s: seq<T>, stop: T, p: seq<T>)
    requires |p| <= |s| && p == s[..|p|] && stop !in p
    requires |p| < |s| ==> s[|p|] == stop
    ensures TakeUntil(s, stop) == p
  {
  }

  /** Padding never changes the string the host reads. */
  lemma PaddingPreservesCString(s: seq<Byte>, n: nat)
    requires |s| < n
    ensures CString(NulPadded(s, n)) == CString(s)
  {
    var b := NulPadded(s, n);
    var p := CString(s);
    if |p| < |s| {
      assert b[|p|] == s[|p|];
    } else {
      assert b[|s|] == NUL;
    }
    assert p == b[..|p|];
    TakeUntilUnique(b, NUL, p);
  }

  /** A name without NUL bytes that fits the buffer is read back by the host unchanged. */
  lemma NameReadBack(s: seq<Byte>, n: nat)
    requires |s| < n
    requires NUL !in s
    ensures CString(NulPadded(s, n)) == s
  {
    PaddingPreservesCString(s, n);
    TakeUntilUnique(s, NUL, s);
  }

  /** A stop-free list in front of a tail reads as the list followed by what the tail reads as. */
  lemma {:induction false} TakeUntilAppend<T>(vs: seq<T>, tail: seq<T>, stop: T)
    requires stop !in vs
    ensures TakeUntil(vs + tail, stop) == vs + TakeUntil(tail, stop)
  {
    if vs != [] {
      TakeUntilAppend(vs[1..], tail, stop);
      calc {
        TakeUntil(vs + tail, stop);
        { assert (vs + tail)[0] == vs[0] != stop; }
        [vs[0]] + TakeUntil((vs + tail)[1..], stop);
        { assert (vs + tail)[1..] == vs[1..] + tail; }
        [vs[0]] + (vs[1..] + TakeUntil(tail, stop));
        { assert vs == [vs[0]] + vs[1..]; }
        vs + TakeUntil(tail, stop);
      }
    } else {
      assert vs + tail == tail;
    }
  }

  // ---------------------------------------------------------------------------
  // The setters, on values

  function WithPluginVersion(r: Record, v: uint32): Record {
    r.(pluginVersion := v)
  }

  function WithPluginName(r: Record, s: seq<Byte>): Record
    requires |s| < NameCapacity
  {
    r.(pluginName := NulPadded(s, NameCapacity))
  }

  function WithAuthorName(r: Record, s: seq<Byte>): Record
    requires |s| < NameCapacity
  {
    r.(author := NulPadded(s, NameCapacity))
  }

  function WithUsesSigScanning(r: Record, b: bool): Record {
    r.(addressIndependence := BoolToUint32(!b))
  }

  function WithUsesAddressLibrary(r: Record, b: bool): Record {
    r.(addressIndependence := BoolToUint32(b))
  }

  function WithHasNoStructUse(r: Record, b: bool): Record {
    r.(structureIndependence := BoolToUint32(!b))
  }

  function WithIsLayoutDependent(r: Record, b: bool): Record {
    r.(structureIndependence := BoolToUint32(b))
  }

  /** `std::ranges::copy` of the list into the front of the array; later slots are left as they were. */
  function WithCompatibleVersions(r: Record, vs: seq<uint32>): Record
    requires |vs| < VersionListLimit
    requires |r.compatibleVersions| == VersionSlots
  {
    r.(compatibleVersions := vs + r.compatibleVersions[|vs|..])
  }

  function WithMinimumRequiredXSEVersion(r: Record, v: uint32): Record {
    r.(xseMinimum := v)
  }

  // ---------------------------------------------------------------------------
  // Properties of the setters

  /** Every setter keeps the descriptor invariant: constants intact, names terminated, terminator slots zero. */
  lemma SettersPreserveWf(r: Record, v: uint32, s: seq<Byte>, b: bool, vs: seq<uint32>)
    requires Wf(r)
    requires |s| < NameCapacity && |vs| < VersionListLimit
    ensures Wf(WithPluginVersion(r, v)) && Wf(WithMinimumRequiredXSEVersion(r, v))
    ensures Wf(WithPluginName(r, s)) && Wf(WithAuthorName(r, s))
    ensures Wf(WithUsesSigScanning(r, b)) && Wf(WithUsesAddressLibrary(r, b))
    ensures Wf(WithHasNoStructUse(r, b)) && Wf(WithIsLayoutDependent(r, b))
    ensures Wf(WithCompatibleVersions(r, vs))
  {
    var cv := WithCompatibleVersions(r, vs).compatibleVersions;
    assert cv[VersionListLimit - 1] == r.compatibleVersions[VersionListLimit - 1];
    assert cv[VersionListLimit] == r.compatibleVersions[VersionListLimit];
  }

  /** Setting a name twice leaves only the second value: nothing of the first survives. */
  lemma NameSettersLeaveNoResidue(r: Record, s1: seq<Byte>, s2: seq<Byte>)
    requires |s1| < NameCapacity && |s2| < NameCapacity
    ensures WithPluginName(WithPluginName(r, s1), s2) == WithPluginName(r, s2)
    ensures WithAuthorName(WithAuthorName(r, s1), s2) == WithAuthorName(r, s2)
    ensures WithPluginName(WithPluginName(r, s1), s1) == WithPluginName(r, s1)
  {
  }

  /** The host reads back the plugin and author names that were set, and the other name is untouched. */
  lemma NamesReadBack(r: Record, s: seq<Byte>)
    requires |s| < NameCapacity && NUL !in s
    ensures CString(WithPluginName(r, s).pluginName) == s
    ensures WithPluginName(r, s).author == r.author
    ensures CString(WithAuthorName(r, s).author) == s
    ensures WithAuthorName(r, s).pluginName == r.pluginName
  {
    NameReadBack(s, NameCapacity);
  }

  /** `UsesSigScanning(b)` is `UsesAddressLibrary(!b)`, and `HasNoStructUse(b)` is `IsLayoutDependent(!b)`. */
  lemma NegatedFlagSetters(r: Record, b: bool)
    ensures WithUsesSigScanning(r, b) == WithUsesAddressLibrary(r, !b)
    ensures WithHasNoStructUse(r, b) == WithIsLayoutDependent(r, !b)
    ensures WithUsesAddressLibrary(r, b).addressIndependence == 1 <==> b
    ensures WithIsLayoutDependent(r, b).structureIndependence == 1 <==> b
  {
  }

  /**
   * After `CompatibleVersions(vs)` on a descriptor whose slot `|vs|` is zero,
   * the host reads exactly `vs` (provided no entry is the terminator 0).
   */
  lemma VersionListAfterSet(r: Record, vs: seq<uint32>)
    requires Wf(r) && |vs| < VersionListLimit && 0 !in vs
    requires r.compatibleVersions[|vs|] == 0
    ensures VersionList(WithCompatibleVersions(r, vs).compatibleVersions) == vs
  {
    var tail := r.compatibleVersions[|vs|..];
    TakeUntilAppend(vs, tail, 0);
    assert tail[0] == 0;
  }

  /** Whatever the setters did, the host never reads more than 14 compatible versions. */
  lemma VersionListBounded(r: Record)
    requires Wf(r)
    ensures |VersionList(r.compatibleVersions)| < VersionListLimit
  {
    var s := r.compatibleVersions;
    var p := VersionList(s);
    assert s[VersionListLimit - 1] == 0;
  }

  /**
   * `CompatibleVersions` does not clear the slots after the new list: the host
   * reads the new list followed by whatever the old slots from `|vs|` on read as.
   */
  lemma StaleVersionsRemainVisible(r: Record, vs: seq<uint32>)
    requires Wf(r) && |vs| < VersionListLimit && 0 !in vs
    ensures VersionList(WithCompatibleVersions(r, vs).compatibleVersions)
            == vs + VersionList(r.compatibleVersions[|vs|..])
  {
    TakeUntilAppend(vs, r.compatibleVersions[|vs|..], 0);
  }

  /** An instance: setting `[7, 8]` and then `[9]` makes the host read `[9, 8]`. */
  lemma StaleVersionsExample()
    ensures var r := WithCompatibleVersions(WithCompatibleVersions(Default(), [7, 8]), [9]);
            VersionList(r.compatibleVersions) == [9, 8]
  {
    var r1 := WithCompatibleVersions(Default(), [7, 8]);
    SettersPreserveWf(Default(), 0, [], false, [7, 8]);
    StaleVersionsRemainVisible(r1, [9]);
    VersionListAfterSet(Default(), [7, 8]);
    assert r1.compatibleVersions[1..] == [8] + r1.compatibleVersions[2..];
    TakeUntilAppend([8], r1.compatibleVersions[2..], 0);
  }

  // ---------------------------------------------------------------------------
  // Byte image

  /** The bytes of one member, as they sit in memory. */
  function FieldBytes(r: Record, f: Field): seq<Byte> {
    match f
    case DataVersion => LE32(r.dataVersion)
    case PluginVersion => LE32(r.pluginVersion)
    case PluginName => r.pluginName
    case Author => r.author
    case AddressIndependence => LE32(r.addressIndependence)
    case StructureIndependence => LE32(r.structureIndependence)
    case CompatibleVersions => Words(r.compatibleVersions)
    case XseMinimum => LE32(r.xseMinimum)
    case ReservedNonBreaking => LE32(r.reservedNonBreaking)
    case ReservedBreaking => LE32(r.reservedBreaking)
  }

  lemma FieldBytesSize(r: Record, f: Field)
    requires Wf(r)
    ensures |FieldBytes(r, f)| == SizeOf(f)
  {
  }

  function Concat(parts: seq<seq<Byte>>): seq<Byte> {
    if parts == [] then [] else parts[0] + Concat(parts[1..])
  }

  lemma {:induction false} ConcatAppend(a: seq<seq<Byte>>, b: seq<seq<Byte>>)
    ensures Concat(a + b) == Concat(a) + Concat(b)
  {
    if a != [] {
      ConcatAppend(a[1..], b);
      calc {
        Concat(a + b);
        (a + b)[0] + Concat((a + b)[1..]);
        { assert (a + b)[1..] == a[1..] + b; }
        a[0] + Concat(a[1..] + b);
        a[0] + (Concat(a[1..]) + Concat(b));
        Concat(a) + Concat(b);
      }
    } else {
      assert a + b == b;
    }
  }

  /** The members' bytes in declaration order. */
  function Parts(r: Record): (ps: seq<seq<Byte>>)
    ensures |ps| == |Order|
  {
    seq(|Order|, k requires 0 <= k < |Order| => FieldBytes(r, Order[k]))
  }

  /** The members before the `k`-th fill exactly its packed offset. */
  lemma {:induction false} PrefixLength(r: Record, k: nat)
    requires Wf(r) && k <= |Order|
    ensures |Concat(Parts(r)[..k])| == PackedOffset(k)
  {
    if k > 0 {
      PrefixLength(r, k - 1);
      assert Parts(r)[..k] == Parts(r)[..k - 1] + [Parts(r)[k - 1]];
      ConcatAppend(Parts(r)[..k - 1], [Parts(r)[k - 1]]);
      FieldBytesSize(r, Order[k - 1]);
    }
  }

  /** The record's memory image, `sizeof(PluginVersionData)` bytes long. */
  function Encode(r: Record): (bytes: seq<Byte>)
    requires Wf(r)
    ensures |bytes| == StatedSize
  {
    ImageLength(r);
    Concat(Parts(r))
  }

  lemma ImageLength(r: Record)
    requires Wf(r)
    ensures |Concat(Parts(r))| == StatedSize
  {
    PrefixLength(r, |Order|);
    assert Parts(r)[..|Order|] == Parts(r);
    LayoutMatchesStaticAsserts();
  }

  /** The image cut around member `f`: what precedes it, its bytes, what follows it. */
  lemma EncodeSplit(r: Record, f: Field)
    requires Wf(r)
    ensures Encode(r) == Concat(Parts(r)[..IndexOf(f)]) + FieldBytes(r, f) + Concat(Parts(r)[IndexOf(f) + 1..])
    ensures |Concat(Parts(r)[..IndexOf(f)])| == Offset(f)
  {
    var k := IndexOf(f);
    var ps := Parts(r);
    assert ps == ps[..k] + ([ps[k]] + ps[k + 1..]);
    ConcatAppend(ps[..k], [ps[k]] + ps[k + 1..]);
    ConcatAppend([ps[k]], ps[k + 1..]);
    PrefixLength(r, k);
    NoPadding(k);
  }

  /** The host finds every member at its stated offset. */
  lemma EncodeAt(r: Record, f: Field)
    requires Wf(r)
    ensures Encode(r)[StatedOffset(f) .. StatedOffset(f) + SizeOf(f)] == FieldBytes(r, f)
  {
    EncodeSplit(r, f);
    LayoutMatchesStaticAsserts();
    FieldBytesSize(r, f);
  }

  /**
   * Two descriptors whose members agree except for `f` have images that agree
   * except for the bytes of `f`.
   */
  lemma EncodeDiffersOnlyAt(r: Record, r2: Record, f: Field)
    requires Wf(r) && Wf(r2)
    requires forall g: Field :: g != f ==> FieldBytes(r, g) == FieldBytes(r2, g)
    ensures Encode(r2) == Encode(r)[..StatedOffset(f)] + FieldBytes(r2, f) + Encode(r)[StatedOffset(f) + SizeOf(f)..]
  {
    var k := IndexOf(f);
    PartsAgreeExcept(r, r2, f);
    EncodeSplit(r, f);
    EncodeSplit(r2, f);
    LayoutMatchesStaticAsserts();
    FieldBytesSize(r, f);
    var pre := Concat(Parts(r)[..k]);
    var post := Concat(Parts(r)[k + 1..]);
    assert |pre| == StatedOffset(f);
    SpliceParts(pre, FieldBytes(r, f), post);
  }

  /** Descriptors that agree on every member but `f` agree on the parts before and after it. */
  lemma PartsAgreeExcept(r: Record, r2: Record, f: Field)
    requires forall g: Field :: g != f ==> FieldBytes(r, g) == FieldBytes(r2, g)
    ensures Parts(r)[..IndexOf(f)] == Parts(r2)[..IndexOf(f)]
    ensures Parts(r)[IndexOf(f) + 1..] == Parts(r2)[IndexOf(f) + 1..]
  {
    var k := IndexOf(f);
    forall j | 0 <= j < |Order| && j != k
      ensures Parts(r)[j] == Parts(r2)[j]
    {
      OrderIndexOf(j);
    }
  }

  lemma SpliceParts(a: seq<Byte>, b: seq<Byte>, c: seq<Byte>)
    ensures (a + b + c)[..|a|] == a
    ensures (a + b + c)[|a| + |b|..] == c
  {
  }

  /** `PluginName` rewrites bytes 0x008..0x108 of the image and nothing else. */
  lemma PluginNameBytes(r: Record, s: seq<Byte>)
    requires Wf(r) && |s| < NameCapacity
    ensures Wf(WithPluginName(r, s))
    ensures Encode(WithPluginName(r, s)) == Encode(r)[..0x008] + NulPadded(s, NameCapacity) + Encode(r)[0x108..]
  {
    SettersPreserveWf(r, 0, s, false, []);
    EncodeDiffersOnlyAt(r, WithPluginName(r, s), PluginName);
  }

  /** `AuthorName` rewrites bytes 0x108..0x208 of the image and nothing else. */
  lemma AuthorNameBytes(r: Record, s: seq<Byte>)
    requires Wf(r) && |s| < NameCapacity
    ensures Wf(WithAuthorName(r, s))
    ensures Encode(WithAuthorName(r, s)) == Encode(r)[..0x108] + NulPadded(s, NameCapacity) + Encode(r)[0x208..]
  {
    SettersPreserveWf(r, 0, s, false, []);
    EncodeDiffersOnlyAt(r, WithAuthorName(r, s), Author);
  }

  /** The address flag setters rewrite the word at 0x208 with 0 or 1 and nothing else. */
  lemma AddressFlagBytes(r: Record, b: bool)
    requires Wf(r)
    ensures Encode(WithUsesAddressLibrary(r, b)) == Encode(r)[..0x208] + LE32(BoolToUint32(b)) + Encode(r)[0x20C..]
    ensures Encode(WithUsesSigScanning(r, b)) == Encode(r)[..0x208] + LE32(BoolToUint32(!b)) + Encode(r)[0x20C..]
  {
    SettersPreserveWf(r, 0, [], b, []);
    EncodeDiffersOnlyAt(r, WithUsesAddressLibrary(r, b), AddressIndependence);
    EncodeDiffersOnlyAt(r, WithUsesSigScanning(r, b), AddressIndependence);
  }

  /** The structure flag setters rewrite the word at 0x20C with 0 or 1 and nothing else. */
  lemma StructureFlagBytes(r: Record, b: bool)
    requires Wf(r)
    ensures Encode(WithIsLayoutDependent(r, b)) == Encode(r)[..0x20C] + LE32(BoolToUint32(b)) + Encode(r)[0x210..]
    ensures Encode(WithHasNoStructUse(r, b)) == Encode(r)[..0x20C] + LE32(BoolToUint32(!b)) + Encode(r)[0x210..]
  {
    SettersPreserveWf(r, 0, [], b, []);
    EncodeDiffersOnlyAt(r, WithIsLayoutDependent(r, b), StructureIndependence);
    EncodeDiffersOnlyAt(r, WithHasNoStructUse(r, b), StructureIndependence);
  }

  /** `CompatibleVersions(vs)` rewrites the first 4·|vs| bytes at 0x210 and nothing else. */
  lemma CompatibleVersionsBytes(r: Record, vs: seq<uint32>)
    requires Wf(r) && |vs| < VersionListLimit
    ensures Wf(WithCompatibleVersions(r, vs))
    ensures Encode(WithCompatibleVersions(r, vs))
         == Encode(r)[..0x210] + Words(vs) + Encode(r)[0x210 + 4 * |vs|..]
  {
    var r2 := WithCompatibleVersions(r, vs);
    var e := Encode(r);
    var tail := r.compatibleVersions[|vs|..];
    SettersPreserveWf(r, 0, [], false, vs);
    assert StatedOffset(CompatibleVersions) == 0x210 && SizeOf(CompatibleVersions) == 0x40;
    VersionSlotsBytes(r, vs + tail);
    assert r2 == r.(compatibleVersions := vs + tail);
    assert Words(tail) == e[0x210 .. 0x250][4 * |vs|..] by {
      EncodeAt(r, CompatibleVersions);
      WordsSuffix(r.compatibleVersions, |vs|);
    }
    WordsAppend(vs, tail);
    Reassemble(e, 0x210, 0x250, 4 * |vs|, Words(vs), Words(tail));
  }

  /** `PluginVersion` and `MinimumRequiredXSEVersion` rewrite their own word and nothing else. */
  lemma VersionWordBytes(r: Record, v: uint32)
    requires Wf(r)
    ensures Encode(WithPluginVersion(r, v)) == Encode(r)[..0x004] + LE32(v) + Encode(r)[0x008..]
    ensures Encode(WithMinimumRequiredXSEVersion(r, v)) == Encode(r)[..0x250] + LE32(v) + Encode(r)[0x254..]
  {
    SettersPreserveWf(r, v, [], false, []);
    EncodeDiffersOnlyAt(r, WithPluginVersion(r, v), PluginVersion);
    EncodeDiffersOnlyAt(r, WithMinimumRequiredXSEVersion(r, v), XseMinimum);
  }

  /** The constant members read as the host requires in every well-formed image. */
  lemma ConstantBytes(r: Record)
    requires Wf(r)
    ensures Encode(r)[0x000 .. 0x004] == LE32(kVersion)
    ensures ReadLE32(Encode(r)[0x000 .. 0x004]) == kVersion
    ensures Encode(r)[0x254 .. 0x25C] == [0, 0, 0, 0, 0, 0, 0, 0]
  {
    EncodeAt(r, DataVersion);
    LE32RoundTrip(kVersion);
    EncodeAt(r, ReservedNonBreaking);
    EncodeAt(r, ReservedBreaking);
    assert Encode(r)[0x254 .. 0x25C] == Encode(r)[0x254 .. 0x258] + Encode(r)[0x258 .. 0x25C];
  }

  /** Replacing the whole version array rewrites bytes 0x210..0x250 of the image and nothing else. */
  lemma VersionSlotsBytes(r: Record, cv: seq<uint32>)
    requires Wf(r) && Wf(r.(compatibleVersions := cv))
    ensures Encode(r.(compatibleVersions := cv)) == Encode(r)[..0x210] + Words(cv) + Encode(r)[0x250..]
  {
    EncodeDiffersOnlyAt(r, r.(compatibleVersions := cv), CompatibleVersions);
  }

  /** Replacing the first `m` bytes of the window `e[lo..hi]` by `x` and keeping the rest of the window. */
  lemma Reassemble(e: seq<Byte>, lo: nat, hi: nat, m: nat, x: seq<Byte>, t: seq<Byte>)
    requires lo + m <= hi <= |e|
    requires t == e[lo..hi][m..]
    ensures e[..lo] + (x + t) + e[hi..] == e[..lo] + x + e[lo + m..]
  {
    assert t + e[hi..] == e[lo + m..];
  }

  // ---------------------------------------------------------------------------
  // The descriptor object

  class PluginVersionData {
    const dataVersion: uint32
    var pluginVersion: uint32
    const pluginName: array<Byte>
    const author: array<Byte>
    var addressIndependence: uint32
    var structureIndependence: uint32
    const compatibleVersions: array<uint32>
    var xseMinimum: uint32
    const reservedNonBreaking: uint32
    const reservedBreaking: uint32

    /** The descriptor's current value. */
    ghost function Value(): Record
      reads this, pluginName, author, compatibleVersions
    {
      Record(dataVersion, pluginVersion, pluginName[..], author[..], addressIndependence,
             structureIndependence, compatibleVersions[..], xseMinimum, reservedNonBreaking, reservedBreaking)
    }

    /** The two name buffers are distinct storage, and the value is well formed. */
    ghost predicate Valid()
      reads this, pluginName, author, compatibleVersions
    {
      pluginName != author && Wf(Value())
    }

    /** `PluginVersionData v{}`. */
    constructor ()
      ensures Valid() && Value() == Default()
      ensures fresh(pluginName) && fresh(author) && fresh(compatibleVersions)
    {
      dataVersion := kVersion;
      pluginVersion := 0;
      pluginName := new Byte[NameCapacity](_ => NUL);
      author := new Byte[NameCapacity](_ => NUL);
      addressIndependence := 0;
      structureIndependence := 0;
      compatibleVersions := new uint32[VersionSlots](_ => 0);
      xseMinimum := 0;
      reservedNonBreaking := 0;
      reservedBreaking := 0;
    }

    method PluginVersion(v: uint32)
      requires Valid()
      modifies this
      ensures Valid() && Value() == WithPluginVersion(old(Value()), v)
    {
      pluginVersion := v;
    }

    method PluginName(s: seq<Byte>)
      requires Valid() && |s| < NameCapacity
      modifies pluginName
      ensures Valid() && Value() == WithPluginName(old(Value()), s)
      ensures author[..] == old(author[..])
    {
      SetCharBuffer(s, pluginName);
    }

    method AuthorName(s: seq<Byte>)
      requires Valid() && |s| < NameCapacity
      modifies author
      ensures Valid() && Value() == WithAuthorName(old(Value()), s)
      ensures pluginName[..] == old(pluginName[..])
    {
      SetCharBuffer(s, author);
    }

    method UsesSigScanning(b: bool)
      requires Valid()
      modifies this
      ensures Valid() && Value() == WithUsesSigScanning(old(Value()), b)
    {
      addressIndependence := BoolToUint32(!b);
    }

    method UsesAddressLibrary(b: bool)
      requires Valid()
      modifies this
      ensures Valid() && Value() == WithUsesAddressLibrary(old(Value()), b)
    {
      addressIndependence := BoolToUint32(b);
    }

    method HasNoStructUse(b: bool)
      requires Valid()
      modifies this
      ensures Valid() && Value() == WithHasNoStructUse(old(Value()), b)
    {
      structureIndependence := BoolToUint32(!b);
    }

    method IsLayoutDependent(b: bool)
      requires Valid()
      modifies this
      ensures Valid() && Value() == WithIsLayoutDependent(old(Value()), b)
    {
      structureIndependence := BoolToUint32(b);
    }

    /** Copies `vs` into the front of the version array; slots from |vs| on keep their contents. */
    method CompatibleVersions(vs: seq<uint32>)
      requires Valid() && |vs| < VersionListLimit
      modifies compatibleVersions
      ensures Valid() && Value() == WithCompatibleVersions(old(Value()), vs)
      ensures forall k :: |vs| <= k < VersionSlots ==> compatibleVersions[k] == old(compatibleVersions[k])
    {
      ghost var before := Value();
      var i := 0;
      while i < |vs|
        invariant 0 <= i <= |vs|
        invariant forall k :: 0 <= k < i ==> compatibleVersions[k] == vs[k]
        invariant forall k :: i <= k < VersionSlots ==> compatibleVersions[k] == old(compatibleVersions[k])
      {
        compatibleVersions[i] := vs[i];
        i := i + 1;
      }
      assert compatibleVersions[..] == vs + before.compatibleVersions[|vs|..];
      SettersPreserveWf(before, 0, [], false, vs);
    }

    method MinimumRequiredXSEVersion(v: uint32)
      requires Valid()
      modifies this
      ensures Valid() && Value() == WithMinimumRequiredXSEVersion(old(Value()), v)
    {
      xseMinimum := v;
    }

    /**
     * Zero-fills `dst`, then copies `src` into its front. The result depends on
     * `src` and the buffer's size only: no byte of the old contents survives.
     */
    static method SetCharBuffer(src: seq<Byte>, dst: array<Byte>)
      requires |src| < dst.Length
      modifies dst
      ensures dst[..] == NulPadded(src, dst.Length)
    {
      var i := 0;
      while i < dst.Length
        invariant 0 <= i <= dst.Length
        invariant forall k :: 0 <= k < i ==> dst[k] == NUL
      {
        dst[i] := NUL;
        i := i + 1;
      }
      i := 0;
      while i < |src|
        invariant 0 <= i <= |src|
        invariant forall k :: 0 <= k < i ==> dst[k] == src[k]
        invariant forall k :: i <= k < dst.Length ==> dst[k] == NUL
      {
        dst[i] := src[i];
        i := i + 1;
      }
      assert dst[..] == NulPadded(src, dst.Length);
    }
  }

  /** Building a descriptor step by step, as a plugin does, and what the host then reads. */
  method DeclareExample() returns (d: PluginVersionData)
    ensures d.Valid()
    ensures CString(d.Value().pluginName) == [0x41, 0x42]
    ensures VersionList(d.Value().compatibleVersions) == [0x0102_0304]
    ensures d.Value().addressIndependence == 1 && d.Value().structureIndependence == 0
  {
    d := new PluginVersionData();
    d.PluginName([0x41, 0x42]);
    d.UsesAddressLibrary(true);
    d.IsLayoutDependent(false);
    d.CompatibleVersions([0x0102_0304]);
    NameReadBack([0x41, 0x42], NameCapacity);
    VersionListAfterSet(WithCompatibleVersions(Default(), []), [0x0102_0304]);
  }
}
