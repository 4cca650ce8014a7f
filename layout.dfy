/**
 * Byte layout of `SFSE::PluginVersionData`.
 *
 * The host reads the record by raw offsets, so the C++ source pins every
 * member offset and the total size with `static_assert`s. Here the layout is
 * computed twice: as the C++ compiler does it (each member placed at the next
 * offset aligned for its type, the total rounded up to the strictest
 * alignment) and as plain prefix sums of the member sizes. The lemmas show
 * that the two agree (the record has no padding) and that both give the
 * offsets and the size the `static_assert`s state.
 */
module Layout {

  /** The members of the record, named as in the source. */
  datatype Field =
    | DataVersion
    | PluginVersion
    | PluginName
    | Author
    | AddressIndependence
    | StructureIndependence
    | CompatibleVersions
    | XseMinimum
    | ReservedNonBreaking
    | ReservedBreaking

  /** Declaration order. */
  const Order: seq<Field> := [
    DataVersion, PluginVersion, PluginName, Author, AddressIndependence,
    StructureIndependence, CompatibleVersions, XseMinimum, ReservedNonBreaking, ReservedBreaking
  ]

  /** Position of a member in declaration order. */
  function IndexOf(f: Field): (k: nat)
    ensures k < |Order| && Order[k] == f
  {
    match f
    case DataVersion => 0
    case PluginVersion => 1
    case PluginName => 2
    case Author => 3
    case AddressIndependence => 4
    case StructureIndependence => 5
    case CompatibleVersions => 6
    case XseMinimum => 7
    case ReservedNonBreaking => 8
    case ReservedBreaking => 9
  }

  /** `IndexOf` inverts `Order`: each position holds a different member. */
  lemma OrderIndexOf(k: nat)
    requires k < |Order|
    ensures IndexOf(Order[k]) == k
  {
  }

  /** `sizeof` of the element type: `char` is 1, `std::uint32_t` is 4. */
  function ElementSize(f: Field): nat {
    match f
    case PluginName | Author => 1
    case _ => 4
  }

  /** Number of elements: the two name buffers hold 256 chars, the version list 16 words. */
  function ElementCount(f: Field): nat {
    match f
    case PluginName | Author => 256
    case CompatibleVersions => 16
    case _ => 1
  }

  function SizeOf(f: Field): nat {
    ElementSize(f) * ElementCount(f)
  }

  /** An array is aligned like its element type; only 1 and 4 occur in this record. */
  function AlignOf(f: Field): (a: nat)
    ensures a == 1 || a == 4
  {
    ElementSize(f)
  }

  /** The least multiple of the alignment `a` not below `x`. */
  function AlignUp(x: nat, a: nat): (r: nat)
    requires a == 1 || a == 4
    ensures r % a == 0
    ensures x <= r < x + a
    ensures x % a == 0 ==> r == x
  {
    if a == 1 || x % 4 == 0 then x else x + (4 - x % 4)
  }

  /** Offset of the `k`-th member when the members are packed back to back. */
  function PackedOffset(k: nat): nat
    requires k <= |Order|
  {
    if k == 0 then 0 else PackedOffset(k - 1) + SizeOf(Order[k - 1])
  }

  /** Offset of the `k`-th member by the C++ layout rule for standard-layout structs. */
  function NaturalOffset(k: nat): nat
    requires k < |Order|
  {
    if k == 0 then 0
    else AlignUp(NaturalOffset(k - 1) + SizeOf(Order[k - 1]), AlignOf(Order[k]))
  }

  /** Strictest alignment among the first `k` members. */
  function MaxAlign(k: nat): (a: nat)
    requires k <= |Order|
    ensures a == 1 || a == 4
  {
    if k == 0 then 1
    else if AlignOf(Order[k - 1]) > MaxAlign(k - 1) then AlignOf(Order[k - 1])
    else MaxAlign(k - 1)
  }

  /** `sizeof(PluginVersionData)` by the C++ rule: end of the last member, rounded up. */
  function NaturalSize(): nat {
    var last := |Order| - 1;
    AlignUp(NaturalOffset(last) + SizeOf(Order[last]), MaxAlign(|Order|))
  }

  /** `offsetof(PluginVersionData, f)`. */
  function Offset(f: Field): nat {
    NaturalOffset(IndexOf(f))
  }

  /** The offsets the source's `static_assert`s state. */
  function StatedOffset(f: Field): nat {
    match f
    case DataVersion => 0x000
    case PluginVersion => 0x004
    case PluginName => 0x008
    case Author => 0x108
    case AddressIndependence => 0x208
    case StructureIndependence => 0x20C
    case CompatibleVersions => 0x210
    case XseMinimum => 0x250
    case ReservedNonBreaking => 0x254
    case ReservedBreaking => 0x258
  }

  /** The size the source's `static_assert` states. */
  const StatedSize: nat := 0x25C

  /** Every member size is a multiple of 4, so every packed offset is 4-aligned. */
  lemma {:induction false} PackedOffsetAligned(k: nat)
    requires k <= |Order|
    ensures PackedOffset(k) % 4 == 0
  {
    if k > 0 {
      PackedOffsetAligned(k - 1);
      var f := Order[k - 1];
      assert SizeOf(f) % 4 == 0 by {
        assert SizeOf(f) == 4 || SizeOf(f) == 256 || SizeOf(f) == 64;
      }
    }
  }

  /** No padding: the compiler's placement of each member is the packed one. */
  lemma {:induction false} NoPadding(k: nat)
    requires k < |Order|
    ensures NaturalOffset(k) == PackedOffset(k)
  {
    if k > 0 {
      NoPadding(k - 1);
      PackedOffsetAligned(k);
      var a := AlignOf(Order[k]);
      assert a == 1 || a == 4;
      assert PackedOffset(k) % a == 0;
    }
  }

  /** Members occupy increasing, non-overlapping byte ranges in declaration order. */
  lemma {:induction false} PackedOrdered(i: nat, j: nat)
    requires i < j <= |Order|
    ensures PackedOffset(i) + SizeOf(Order[i]) <= PackedOffset(j)
  {
    if j > i + 1 {
      PackedOrdered(i, j - 1);
    }
  }

  /** Distinct members never share a byte. */
  lemma FieldsDisjoint(f: Field, g: Field)
    requires f != g
    ensures Offset(f) + SizeOf(f) <= Offset(g) || Offset(g) + SizeOf(g) <= Offset(f)
  {
    var i, j := IndexOf(f), IndexOf(g);
    assert i != j;
    NoPadding(i);
    NoPadding(j);
    if i < j {
      PackedOrdered(i, j);
    } else {
      PackedOrdered(j, i);
    }
  }

  /** The packed prefix sums, written out. */
  lemma PackedOffsets()
    ensures PackedOffset(0) == 0x000 && PackedOffset(1) == 0x004
    ensures PackedOffset(2) == 0x008 && PackedOffset(3) == 0x108
    ensures PackedOffset(4) == 0x208 && PackedOffset(5) == 0x20C
    ensures PackedOffset(6) == 0x210 && PackedOffset(7) == 0x250
    ensures PackedOffset(8) == 0x254 && PackedOffset(9) == 0x258
    ensures PackedOffset(10) == 0x25C
  {
  }

  /** The computed layout satisfies every `static_assert` of the source. */
  lemma LayoutMatchesStaticAsserts()
    ensures forall f: Field :: Offset(f) == StatedOffset(f)
    ensures NaturalSize() == StatedSize
    ensures NaturalSize() == PackedOffset(|Order|)
  {
    PackedOffsets();
    forall f: Field
      ensures Offset(f) == StatedOffset(f)
    {
      NoPadding(IndexOf(f));
    }
    NoPadding(|Order| - 1);
    assert MaxAlign(|Order|) == 4;
  }

  /** Offsets and size are 4-aligned, so the record may be read as 32-bit words. */
  lemma OffsetsWordAligned(f: Field)
    ensures Offset(f) % 4 == 0
    ensures NaturalSize() % 4 == 0
  {
    NoPadding(IndexOf(f));
    PackedOffsetAligned(IndexOf(f));
    LayoutMatchesStaticAsserts();
  }
}
