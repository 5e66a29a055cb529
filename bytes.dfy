/**
  Bytes, the big-endian integer layouts used throughout a presentation
  graphics stream, and writing a run of equal bytes into a buffer.
 */
module Bytes {

  /** An unsigned 8-bit value: C's `uint8_t` and `unsigned char`. */
  type byte = x: int | 0 <= x < 0x100

  /** C's `uint16_t`. */
  type u16 = x: int | 0 <= x < 0x1_0000

  /** C's `uint32_t`. */
  type u32 = x: int | 0 <= x < 0x1_0000_0000

  const U16_LIMIT: nat := 0x1_0000
  const U24_LIMIT: nat := 0x100_0000
  const U32_LIMIT: nat := 0x1_0000_0000

  /** `ntohs` of the two bytes at offset `i`. */
  function Be16(s: seq<byte>, i: nat): (v: nat)
    requires i + 2 <= |s|
    ensures v < U16_LIMIT
  {
    s[i] as int * 0x100 + s[i + 1]
  }

  /** `(b0 << 16) + (b1 << 8) + b2` over the three bytes at offset `i`. */
  function Be24(s: seq<byte>, i: nat): (v: nat)
    requires i + 3 <= |s|
    ensures v < U24_LIMIT
  {
    s[i] as int * 0x1_0000 + s[i + 1] as int * 0x100 + s[i + 2]
  }

  /** `ntohl` of the four bytes at offset `i`. */
  function Be32(s: seq<byte>, i: nat): (v: nat)
    requires i + 4 <= |s|
    ensures v < U32_LIMIT
  {
    Be16(s, i) * U16_LIMIT + Be16(s, i + 2)
  }

  /** The two bytes that `htons` lays out for `v`. */
  function EncodeBe16(v: nat): (r: seq<byte>)
    requires v < U16_LIMIT
    ensures |r| == 2 && Be16(r, 0) == v
  {
    [v / 0x100, v % 0x100]
  }

  function EncodeBe24(v: nat): (r: seq<byte>)
    requires v < U24_LIMIT
    ensures |r| == 3 && Be24(r, 0) == v
  {
    [v / 0x1_0000, (v / 0x100) % 0x100, v % 0x100]
  }

  function EncodeBe32(v: nat): (r: seq<byte>)
    requires v < U32_LIMIT
    ensures |r| == 4 && Be32(r, 0) == v
  {
    EncodeBe16(v / U16_LIMIT) + EncodeBe16(v % U16_LIMIT)
  }

  /** Reading a big-endian field only looks at its own bytes. */
  lemma Be16Slice(s: seq<byte>, i: nat, t: seq<byte>, j: nat)
    requires i + 2 <= |s| && j + 2 <= |t|
    requires s[i] == t[j] && s[i + 1] == t[j + 1]
    ensures Be16(s, i) == Be16(t, j)
  {
  }

  /** Two bytes are determined by their big-endian value. */
  lemma Be16Injective(s: seq<byte>, i: nat)
    requires i + 2 <= |s|
    ensures EncodeBe16(Be16(s, i)) == s[i..i + 2]
  {
  }

  /** The bits `b & 0xC0` the run-length decoder dispatches on are `b / 0x40`. */
  lemma TopBits(b: byte)
    ensures ((b as bv8) & 0xC0) as int == b / 0x40 * 0x40
  {
  }

  /** A flag test `f & 0x80` or `f & 0x40` in arithmetic terms. */
  lemma FlagBits(f: byte)
    ensures ((f as bv8) & 0x80 != 0) <==> f >= 0x80
    ensures ((f as bv8) & 0x40 != 0) <==> (f / 0x40) % 2 == 1
  {
  }

  /** `flags & mask != 0`, as C tests a flag bit. */
  predicate HasFlag(flags: byte, mask: bv8)
  {
    (flags as bv8) & mask != 0
  }

  /**
    The buffer after `n` writes of `v` through a cursor starting at `start`:
    the effect of `for (i = 0; i < n; i++) dest[dest_idx++] = v;`.
   */
  function Fill(s: seq<byte>, start: nat, n: nat, v: byte): (r: seq<byte>)
    requires start + n <= |s|
    ensures |r| == |s|
    ensures forall k :: 0 <= k < |s| ==> r[k] == if start <= k < start + n then v else s[k]
  {
    s[..start] + seq(n, _ => v) + s[start + n..]
  }

  lemma SliceConcat(s: seq<byte>, a: nat, b: nat, c: nat)
    requires a <= b <= c <= |s|
    ensures s[a..b] + s[b..c] == s[a..c]
  {
  }
}
