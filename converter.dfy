/**
 * The 32-bit converter of blowfish.cpp: a union that overlays a 32-bit word
 * with a struct of four byte fields, `byte0` .. `byte3`. The model replaces
 * the type punning by explicit byte layouts: `Memory` gives the word's four
 * bytes in address order on a host of either byte order, and `FieldOffset`
 * gives the address of each struct field under the `#ifdef` branch compiled
 * for that host. The same layouts describe what a `uint32_t` pointer into a
 * byte buffer reads and writes.
 */
module Converter {

  /** The host byte order, which selects one of the two `#ifdef` branches. */
  datatype Host = LittleEndian | BigEndian

  /** When neither endianness macro is defined, the source assumes little endian. */
  const DefaultHost: Host := LittleEndian

  /** Byte k of a word by shift and mask: k = 0 is the most significant byte. */
  function ByteOf(w: bv32, k: nat): bv8
    requires k < 4
  {
    if k == 0 then ((w >> 24) & 0xFF) as bv8
    else if k == 1 then ((w >> 16) & 0xFF) as bv8
    else if k == 2 then ((w >> 8) & 0xFF) as bv8
    else (w & 0xFF) as bv8
  }

  /** The word whose bytes, most significant first, are b0, b1, b2, b3. */
  function BigEndianWord(b0: bv8, b1: bv8, b2: bv8, b3: bv8): (w: bv32)
    ensures ByteOf(w, 0) == b0 && ByteOf(w, 1) == b1
    ensures ByteOf(w, 2) == b2 && ByteOf(w, 3) == b3
  {
    (b0 as bv32 << 24) | (b1 as bv32 << 16) | (b2 as bv32 << 8) | b3 as bv32
  }

  /** The bytes of a word, most significant first, pack back into the word. */
  lemma BytesPack(w: bv32)
    ensures BigEndianWord(ByteOf(w, 0), ByteOf(w, 1), ByteOf(w, 2), ByteOf(w, 3)) == w
  {
  }

  /**
   * The four bytes of a stored word, in increasing address order: least
   * significant first on a little-endian host, most significant first on a
   * big-endian one.
   */
  function Memory(host: Host, w: bv32): (m: seq<bv8>)
    ensures |m| == 4
  {
    match host
    case LittleEndian => [ByteOf(w, 3), ByteOf(w, 2), ByteOf(w, 1), ByteOf(w, 0)]
    case BigEndian => [ByteOf(w, 0), ByteOf(w, 1), ByteOf(w, 2), ByteOf(w, 3)]
  }

  /** The word read from four bytes in increasing address order. */
  function Load(host: Host, m: seq<bv8>): (w: bv32)
    requires |m| == 4
    ensures Memory(host, w) == m
  {
    match host
    case LittleEndian => BigEndianWord(m[3], m[2], m[1], m[0])
    case BigEndian => BigEndianWord(m[0], m[1], m[2], m[3])
  }

  /**
   * Words are read in host order, not in the big-endian order of the cipher's
   * word packing: on the default host the bytes 01 00 00 00 load as the word
   * 1, while their big-endian packing is 0x01000000.
   */
  lemma DefaultHostOrder()
    ensures Load(DefaultHost, [1, 0, 0, 0]) == 1
    ensures BigEndianWord(1, 0, 0, 0) == 0x0100_0000
  {
  }

  /** Storing a word and loading it back gives the word. */
  lemma LoadMemory(host: Host, w: bv32)
    ensures Load(host, Memory(host, w)) == w
  {
    BytesPack(w);
  }

  /**
   * The address of field `byte<k>` within the union. On a little-endian host
   * the struct declares byte3, byte2, byte1, byte0 in that order; on a
   * big-endian host byte0, byte1, byte2, byte3.
   */
  function FieldOffset(host: Host, k: nat): (a: nat)
    requires k < 4
    ensures a < 4
  {
    match host
    case LittleEndian => 3 - k
    case BigEndian => k
  }

  /**
   * `converter.bit_32 = w` followed by a read of `converter.bit_8.byte<k>`.
   * On both branches byte0 is the most significant byte of the word and
   * byte3 the least significant one, whatever the comments beside the
   * little-endian field declarations say.
   */
  function ReadField(host: Host, w: bv32, k: nat): (b: bv8)
    requires k < 4
    ensures b == ByteOf(w, k)
  {
    Memory(host, w)[FieldOffset(host, k)]
  }

  /**
   * Stores `b[k]` into field `byte<k>` for k = 0..3, then reads `bit_32`:
   * the byte at address a is the one stored into the field whose offset is a
   * (`FieldOffset` is its own inverse on both hosts). On both hosts the
   * result is the big-endian packing of b.
   */
  function WriteFields(host: Host, b: seq<bv8>): (w: bv32)
    requires |b| == 4
    ensures w == BigEndianWord(b[0], b[1], b[2], b[3])
  {
    Load(host, seq(4, a requires 0 <= a < 4 => b[FieldOffset(host, a)]))
  }

  /**
   * The `#ifdef` branch is chosen by macros, not by the machine: when neither
   * macro is defined on a big-endian machine, the little-endian field order is
   * compiled, and there `byte0` reads the least significant byte of the word.
   */
  lemma MismatchedBranch(w: bv32)
    ensures Memory(BigEndian, w)[FieldOffset(LittleEndian, 0)] == ByteOf(w, 3)
    ensures Memory(BigEndian, w)[FieldOffset(LittleEndian, 3)] == ByteOf(w, 0)
  {
  }
}
