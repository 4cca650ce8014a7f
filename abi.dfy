/**
 * Machine-level vocabulary shared by the model of SFSE/Stub.h: the fixed-width
 * integer types of the C++ code, bytes, pointers (0 is the null pointer), the
 * conversion of a `bool` to an unsigned integer, and the little-endian byte
 * image of a 32-bit word (the host is an x86-64 process).
 */
module Abi {

  newtype uint32 = x: int | 0 <= x < 0x1_0000_0000
  newtype uint64 = x: int | 0 <= x < 0x1_0000_0000_0000_0000

  /** A C++ `char` as stored in memory: one byte. */
  newtype Byte = x: int | 0 <= x < 0x100

  const NUL: Byte := 0

  /** An address; `Null` is the null pointer. */
  type Ptr = uint64
  const Null: Ptr := 0

  /** `std::size_t` on the 64-bit host. */
  type Size = uint64

  /** The host's plugin handle type, a 32-bit unsigned integer. */
  type PluginHandle = uint32

  /** The C++ conversion of an arbitrary integer to `uint32`: reduction modulo 2^32. */
  function ToUint32(x: int): (r: uint32)
    ensures (r as int - x) % 0x1_0000_0000 == 0
    ensures 0 <= x < 0x1_0000_0000 ==> r as int == x
  {
    (x % 0x1_0000_0000) as uint32
  }

  /** The C++ conversion of a `bool` to `uint32`: `true` is 1, `false` is 0. */
  function BoolToUint32(b: bool): (r: uint32)
    ensures r <= 1
    ensures r != 0 <==> b
  {
    if b then 1 else 0
  }

  /** The four bytes of a 32-bit word in memory order, least significant first. */
  function LE32(x: uint32): (r: seq<Byte>)
    ensures |r| == 4
  {
    [(x % 0x100) as Byte,
     (x / 0x100 % 0x100) as Byte,
     (x / 0x1_0000 % 0x100) as Byte,
     (x / 0x100_0000) as Byte]
  }

  /** Reads a 32-bit word back from its four bytes. */
  function ReadLE32(b: seq<Byte>): (x: uint32)
    requires |b| == 4
  {
    (b[0] as int + 0x100 * b[1] as int + 0x1_0000 * b[2] as int + 0x100_0000 * b[3] as int) as uint32
  }

  /** Storing a word and reading it back gives the word. */
  lemma LE32RoundTrip(x: uint32)
    ensures ReadLE32(LE32(x)) == x
  {
    var n := x as int;
    var q1 := n / 0x100;
    var q2 := q1 / 0x100;
    assert n == n % 0x100 + 0x100 * q1;
    assert q1 == q1 % 0x100 + 0x100 * q2;
    assert q2 == q2 % 0x100 + 0x100 * (q2 / 0x100);
    assert n / 0x1_0000 == q2;
    assert n / 0x100_0000 == q2 / 0x100;
  }

  /** Little-endian image of a sequence of words, laid out one after the other. */
  function Words(ws: seq<uint32>): (r: seq<Byte>)
    ensures |r| == 4 * |ws|
  {
    if ws == [] then [] else LE32(ws[0]) + Words(ws[1..])
  }

  /** The image of two word sequences one after the other. */
  lemma {:induction false} WordsAppend(a: seq<uint32>, b: seq<uint32>)
    ensures Words(a + b) == Words(a) + Words(b)
  {
    if a != [] {
      WordsAppend(a[1..], b);
      calc {
        Words(a + b);
        LE32((a + b)[0]) + Words((a + b)[1..]);
        { assert (a + b)[1..] == a[1..] + b; }
        LE32(a[0]) + Words(a[1..] + b);
        LE32(a[0]) + (Words(a[1..]) + Words(b));
        Words(a) + Words(b);
      }
    } else {
      assert a + b == b;
    }
  }

  /** The image of the words from position `k` on is the image from byte 4k on. */
  lemma WordsSuffix(ws: seq<uint32>, k: nat)
    requires k <= |ws|
    ensures Words(ws)[4 * k..] == Words(ws[k..])
  {
    assert ws == ws[..k] + ws[k..];
    WordsAppend(ws[..k], ws[k..]);
  }
}
