/**
 * What `Blowfish::Encrypt` and `Blowfish::Decrypt` (blowfish.cpp) do to a
 * byte buffer, as functions over byte sequences: every full 8-byte block is
 * read as two host-order 32-bit words, left first, run through the block
 * function and written back in place; the bytes after the last full block
 * are left as they are.
 *
 * The buffer part is written for any block function on `Halves`;
 * `BlockFunction` supplies `EncryptBlock` or `DecryptBlock` of a cipher state.
 */
module Buffer {
  import opened Converter
  import opened Network

  /** Which of the two block functions a buffer operation applies. */
  datatype Direction = Encryption | Decryption

  /** The other direction. */
  function Inverse(dir: Direction): Direction
  {
    match dir
    case Encryption => Decryption
    case Decryption => Encryption
  }

  /** `EncryptBlock` or `DecryptBlock` under the given cipher state, as a value. */
  function BlockFunction(dir: Direction, P: PArray, S: SBoxes): Halves -> Halves
  {
    match dir
    case Encryption => h => Encipher(P, S, h)
    case Decryption => h => Decipher(P, S, h)
  }

  /** The block functions of opposite directions undo each other, for every cipher state. */
  lemma BlockFunctionInverse(dir: Direction, P: PArray, S: SBoxes)
    ensures forall h :: BlockFunction(Inverse(dir), P, S)(BlockFunction(dir, P, S)(h)) == h
  {
    forall h
      ensures BlockFunction(Inverse(dir), P, S)(BlockFunction(dir, P, S)(h)) == h
    {
      match dir
      case Encryption => DecipherEncipher(P, S, h);
      case Decryption => EncipherDecipher(P, S, h);
    }
  }

  /** One 8-byte block: the words at offsets 0 and 4 are the left and right halves. */
  function BlockBytes(host: Host, cipher: Halves -> Halves, b: seq<bv8>): (r: seq<bv8>)
    requires |b| == 8
    ensures |r| == 8
  {
    var c := cipher(Halves(Load(host, b[..4]), Load(host, b[4..])));
    Memory(host, c.left) + Memory(host, c.right)
  }

  /** The buffer after the block loop: full blocks transformed, trailing bytes kept. */
  function TransformBytes(host: Host, cipher: Halves -> Halves, b: seq<bv8>): (r: seq<bv8>)
    ensures |r| == |b|
    decreases |b|
  {
    if |b| < 8 then b
    else BlockBytes(host, cipher, b[..8]) + TransformBytes(host, cipher, b[8..])
  }

  /** A block transformed and stored is restored by the inverse block function. */
  lemma BlockRoundTrip(host: Host, cipher: Halves -> Halves, inverse: Halves -> Halves, b: seq<bv8>)
    requires |b| == 8
    requires forall h :: inverse(cipher(h)) == h
    ensures BlockBytes(host, inverse, BlockBytes(host, cipher, b)) == b
  {
    var h := Halves(Load(host, b[..4]), Load(host, b[4..]));
    var c := cipher(h);
    var out := BlockBytes(host, cipher, b);
    assert out[..4] == Memory(host, c.left) && out[4..] == Memory(host, c.right);
    LoadMemory(host, c.left);
    LoadMemory(host, c.right);
    assert b == b[..4] + b[4..];
  }

  /** A buffer transformed by a block function is restored by its inverse. */
  lemma {:induction false} TransformInverse(host: Host, cipher: Halves -> Halves, inverse: Halves -> Halves, b: seq<bv8>)
    requires forall h :: inverse(cipher(h)) == h
    ensures TransformBytes(host, inverse, TransformBytes(host, cipher, b)) == b
    decreases |b|
  {
    if |b| >= 8 {
      var x := BlockBytes(host, cipher, b[..8]);
      var y := TransformBytes(host, cipher, b[8..]);
      assert (x + y)[..8] == x && (x + y)[8..] == y;
      BlockRoundTrip(host, cipher, inverse, b[..8]);
      TransformInverse(host, cipher, inverse, b[8..]);
      assert b == b[..8] + b[8..];
    }
  }

  /** `Decrypt` undoes `Encrypt` and `Encrypt` undoes `Decrypt`, for every cipher state. */
  lemma TransformRoundTrip(host: Host, dir: Direction, P: PArray, S: SBoxes, b: seq<bv8>)
    ensures TransformBytes(host, BlockFunction(Inverse(dir), P, S), TransformBytes(host, BlockFunction(dir, P, S), b)) == b
  {
    BlockFunctionInverse(dir, P, S);
    TransformInverse(host, BlockFunction(dir, P, S), BlockFunction(Inverse(dir), P, S), b);
  }

  /** Blocks are independent: a prefix of whole blocks is transformed on its own. */
  lemma {:induction false} TransformAppend(host: Host, cipher: Halves -> Halves, x: seq<bv8>, y: seq<bv8>)
    requires |x| % 8 == 0
    ensures TransformBytes(host, cipher, x + y) == TransformBytes(host, cipher, x) + TransformBytes(host, cipher, y)
    decreases |x|
  {
    if |x| > 0 {
      var a := BlockBytes(host, cipher, x[..8]);
      assert (x + y)[..8] == x[..8] && (x + y)[8..] == x[8..] + y;
      assert TransformBytes(host, cipher, x + y) == a + TransformBytes(host, cipher, x[8..] + y);
      TransformAppend(host, cipher, x[8..], y);
      assert TransformBytes(host, cipher, x) == a + TransformBytes(host, cipher, x[8..]);
      Associative(a, TransformBytes(host, cipher, x[8..]), TransformBytes(host, cipher, y));
    } else {
      assert x + y == y;
    }
  }

  /** Concatenation is associative (a sequence fact stated apart to keep `TransformAppend` cheap). */
  lemma Associative(a: seq<bv8>, b: seq<bv8>, c: seq<bv8>)
    ensures a + (b + c) == (a + b) + c
  {
  }

  /** Block i of the result is block i of the input, transformed. */
  lemma TransformBlockAt(host: Host, cipher: Halves -> Halves, b: seq<bv8>, i: nat)
    requires 8 * i + 8 <= |b|
    ensures TransformBytes(host, cipher, b)[8 * i .. 8 * i + 8] == BlockBytes(host, cipher, b[8 * i .. 8 * i + 8])
  {
    TransformAround(host, cipher, b, i);
    SliceMiddle(TransformBytes(host, cipher, b[..8 * i]), BlockBytes(host, cipher, b[8 * i .. 8 * i + 8]),
                TransformBytes(host, cipher, b[8 * i + 8..]));
  }

  /** The transform of a buffer around its block i. */
  lemma TransformAround(host: Host, cipher: Halves -> Halves, b: seq<bv8>, i: nat)
    requires 8 * i + 8 <= |b|
    ensures TransformBytes(host, cipher, b) ==
            TransformBytes(host, cipher, b[..8 * i]) +
            (BlockBytes(host, cipher, b[8 * i .. 8 * i + 8]) + TransformBytes(host, cipher, b[8 * i + 8..]))
  {
    var x, y := b[..8 * i], b[8 * i..];
    assert b == x + y;
    TransformAppend(host, cipher, x, y);
    assert y[..8] == b[8 * i .. 8 * i + 8] && y[8..] == b[8 * i + 8..];
  }

  /** The 8 bytes that follow a prefix (a sequence fact stated apart to keep `TransformBlockAt` cheap). */
  lemma SliceMiddle(x: seq<bv8>, a: seq<bv8>, r: seq<bv8>)
    requires |a| == 8
    ensures (x + (a + r))[|x| .. |x| + 8] == a
  {
  }

  /** The transform of a prefix of whole blocks, one block longer. */
  lemma TransformPrefix(host: Host, cipher: Halves -> Halves, b: seq<bv8>, i: nat)
    requires 8 * i + 8 <= |b|
    ensures TransformBytes(host, cipher, b[..8 * i + 8]) ==
            TransformBytes(host, cipher, b[..8 * i]) + BlockBytes(host, cipher, b[8 * i .. 8 * i + 8])
  {
    var x, y := b[..8 * i], b[8 * i .. 8 * i + 8];
    assert b[..8 * i + 8] == x + y;
    TransformAppend(host, cipher, x, y);
    assert y[..8] == y && y[8..] == [];
  }

  /** The transform of a whole buffer, from its full blocks and its tail. */
  lemma TransformSplit(host: Host, cipher: Halves -> Halves, b: seq<bv8>, i: nat)
    requires 8 * i <= |b| < 8 * i + 8
    ensures TransformBytes(host, cipher, b) == TransformBytes(host, cipher, b[..8 * i]) + b[8 * i..]
  {
    assert b == b[..8 * i] + b[8 * i..];
    TransformAppend(host, cipher, b[..8 * i], b[8 * i..]);
  }

  /** A buffer whose full blocks are all done, followed by untouched bytes. */
  lemma TransformDone(host: Host, cipher: Halves -> Halves, b: seq<bv8>, i: nat, rest: seq<bv8>)
    requires 8 * i <= |b| < 8 * i + 8
    ensures TransformBytes(host, cipher, b[..8 * i]) + b[8 * i..] + rest == TransformBytes(host, cipher, b) + rest
  {
    TransformSplit(host, cipher, b, i);
  }

  /** The bytes after the last full block are left as they are. */
  lemma TransformTail(host: Host, cipher: Halves -> Halves, b: seq<bv8>)
    ensures TransformBytes(host, cipher, b)[|b| - |b| % 8 ..] == b[|b| - |b| % 8 ..]
  {
    var i := |b| / 8;
    assert 8 * i == |b| - |b| % 8;
    TransformSplit(host, cipher, b, i);
  }

  /**
   * Storing a transformed block over the next block of a half-done buffer:
   * the done part grows by the block and the rest is unchanged.
   */
  lemma SpliceBlock(done: seq<bv8>, todo: seq<bv8>, rest: seq<bv8>, block: seq<bv8>)
    requires |todo| >= 8 && |block| == 8
    ensures (done + todo + rest)[|done| .. |done| + 8] == todo[..8]
    ensures var d := done + todo + rest; d[..|done|] + block + d[|done| + 8..] == (done + block) + todo[8..] + rest
  {
    var d := done + todo + rest;
    assert d[..|done|] == done;
    assert d[|done| + 8..] == todo[8..] + rest;
  }

  /** The buffer with block i transformed in place and every other byte kept. */
  function StoreBlock(host: Host, cipher: Halves -> Halves, d: seq<bv8>, i: nat): (r: seq<bv8>)
    requires 8 * i + 8 <= |d|
    ensures |r| == |d|
  {
    d[..8 * i] + BlockBytes(host, cipher, d[8 * i .. 8 * i + 8]) + d[8 * i + 8..]
  }

  /**
   * One pass of the block loop over a buffer whose first i blocks are done:
   * transforming block i in place leaves i + 1 blocks done.
   */
  lemma TransformStep(host: Host, cipher: Halves -> Halves, b: seq<bv8>, i: nat, rest: seq<bv8>, d: seq<bv8>)
    requires 8 * i + 8 <= |b|
    requires d == TransformBytes(host, cipher, b[..8 * i]) + b[8 * i..] + rest
    ensures StoreBlock(host, cipher, d, i) == TransformBytes(host, cipher, b[..8 * (i + 1)]) + b[8 * (i + 1)..] + rest
  {
    var done := TransformBytes(host, cipher, b[..8 * i]);
    var block := BlockBytes(host, cipher, b[8 * i .. 8 * i + 8]);
    SpliceBlock(done, b[8 * i..], rest, block);
    assert b[8 * i..][..8] == b[8 * i .. 8 * i + 8];
    TransformPrefix(host, cipher, b, i);
    assert b[8 * (i + 1)..] == b[8 * i..][8..];
  }
}
