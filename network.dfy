/**
 * The Blowfish round function and the 16-round Feistel network of
 * blowfish.cpp, as functions over the cipher state held as sequences: the
 * 18-word P-array and the four S-boxes flattened row-major, so that
 * `sbox_[k][j]` is `S[256 * k + j]`.
 *
 * The network is written for an arbitrary round function `f` and an
 * arbitrary sequence of round keys; the cipher instantiates `f` with
 * `Feistel(S)` and the keys with the P-array. The round trips below therefore
 * hold for every P-array and every S-boxes alike.
 */
module Network {
  import opened Converter

  type PArray = p: seq<bv32> | |p| == 18 witness seq(18, _ => 0)
  type SBoxes = s: seq<bv32> | |s| == 1024 witness seq(1024, _ => 0)

  /** The two 32-bit halves of a 64-bit block, as `*left` and `*right`. */
  datatype Halves = Halves(left: bv32, right: bv32)

  /**
   * `Blowfish::Feistel`: the word is split into bytes a, b, c, d, most
   * significant first, and the result is ((S0[a] + S1[b]) ^ S2[c]) + S3[d],
   * with additions modulo 2^32. The source takes the bytes from the
   * converter's fields byte0 .. byte3; `FeistelReadsFields` shows that they
   * are `ByteOf(v, 0)` .. `ByteOf(v, 3)` on either host.
   */
  function F(S: SBoxes, v: bv32): bv32
  {
    Mix(S, ByteOf(v, 0), ByteOf(v, 1), ByteOf(v, 2), ByteOf(v, 3))
  }

  /** The F expression over four bytes: ((S0[a] + S1[b]) ^ S2[c]) + S3[d]. */
  function Mix(S: SBoxes, a: bv8, b: bv8, c: bv8, d: bv8): bv32
  {
    Combine(Box(S, 0, a), Box(S, 1, b), Box(S, 2, c), Box(S, 3, d))
  }

  /** The F expression over the four S-box words looked up: ((s0 + s1) ^ s2) + s3. */
  function Combine(s0: bv32, s1: bv32, s2: bv32, s3: bv32): bv32
  {
    ((s0 + s1) ^ s2) + s3
  }

  /** `sbox_[k][j]`: entry j of box k in the row-major flat S-boxes. */
  function Box(S: SBoxes, k: nat, j: bv8): bv32
    requires k < 4
  {
    Lookup(S, 256 * k, j)
  }

  /**
   * Entry base + j of S, reached by stepping j entries on from base, so that
   * the byte is never converted to an integer index; `LookupIndex` shows that
   * it is `S[base + j]`. The stepping form exists only to keep the proofs
   * about F cheap: an integer index made of a bit-vector in every unfolding
   * of F makes the verifier slow.
   */
  function Lookup(S: seq<bv32>, base: nat, j: bv8): bv32
    requires base + j as int < |S|
    decreases j as int
  {
    if j == 0 then S[base] else Lookup(S, base + 1, j - 1)
  }

  /** `Lookup` is indexing. */
  lemma {:induction false} LookupIndex(S: seq<bv32>, base: nat, j: bv8)
    requires base + j as int < |S|
    ensures Lookup(S, base, j) == S[base + j as int]
    decreases j as int
  {
    if j != 0 {
      LookupIndex(S, base + 1, j - 1);
    }
  }

  /**
   * The round function reads box k at its own 256-entry row of the flat
   * S-boxes: ((S[a] + S[256 + b]) ^ S[512 + c]) + S[768 + d] for the bytes
   * a, b, c, d of v, most significant first.
   */
  lemma FeistelLookups(S: SBoxes, v: bv32)
    ensures F(S, v) == Combine(S[ByteOf(v, 0) as int], S[256 + ByteOf(v, 1) as int],
                               S[512 + ByteOf(v, 2) as int], S[768 + ByteOf(v, 3) as int])
  {
    LookupIndex(S, 0, ByteOf(v, 0));
    LookupIndex(S, 256, ByteOf(v, 1));
    LookupIndex(S, 512, ByteOf(v, 2));
    LookupIndex(S, 768, ByteOf(v, 3));
  }

  /** The round function of the given S-boxes as a value. */
  function Feistel(S: SBoxes): bv32 -> bv32
  {
    v => F(S, v)
  }

  /** One pass of the round loop: left ^= k; right ^= f(left); swap the halves. */
  function Round(f: bv32 -> bv32, k: bv32, left: bv32, right: bv32): Halves
  {
    var l := left ^ k;
    Halves(right ^ f(l), l)
  }

  /** After the rounds: undo the last swap, then right ^= k0 and left ^= k1. */
  function Whiten(k0: bv32, k1: bv32, h: Halves): Halves
  {
    Halves(h.right ^ k1, h.left ^ k0)
  }

  /**
   * The Feistel network over the round keys `keys`: one round per key but
   * the last two, which whiten the result.
   */
  function FeistelNetwork(f: bv32 -> bv32, keys: seq<bv32>, h: Halves): Halves
    requires |keys| >= 2
    decreases |keys|
  {
    if |keys| == 2 then Whiten(keys[0], keys[1], h)
    else FeistelNetwork(f, keys[1..], Round(f, keys[0], h.left, h.right))
  }

  /** A sequence in reverse order. */
  function Reversed(s: seq<bv32>): (r: seq<bv32>)
    ensures |r| == |s|
    ensures forall i :: 0 <= i < |s| ==> r[i] == s[|s| - 1 - i]
  {
    if |s| == 0 then [] else Reversed(s[1..]) + [s[0]]
  }

  /** `EncryptBlock` of a cipher state: 16 rounds with P[0] .. P[15], whitened by P[16] and P[17]. */
  function Encipher(P: PArray, S: SBoxes, h: Halves): Halves
  {
    FeistelNetwork(Feistel(S), P, h)
  }

  /**
   * `DecryptBlock` of a cipher state: 16 rounds with P[17] down to P[2],
   * whitened by P[1] and P[0], which is the same network over the reversed
   * P-array.
   */
  function Decipher(P: PArray, S: SBoxes, h: Halves): Halves
  {
    FeistelNetwork(Feistel(S), Reversed(P), h)
  }

  /**
   * The converter's fields are the bytes of the standard formula on either
   * host: a = v >> 24, b = (v >> 16) & 0xFF, c = (v >> 8) & 0xFF, d = v & 0xFF.
   */
  lemma FieldsAreShifts(host: Host, v: bv32)
    ensures ReadField(host, v, 0) == ((v >> 24) & 0xFF) as bv8 && ReadField(host, v, 1) == ((v >> 16) & 0xFF) as bv8
    ensures ReadField(host, v, 2) == ((v >> 8) & 0xFF) as bv8 && ReadField(host, v, 3) == (v & 0xFF) as bv8
  {
  }

  /**
   * The round function is the source's expression over the bytes it reads
   * from the converter's fields, on either host; each index stays inside its
   * own 256-entry box.
   */
  lemma FeistelReadsFields(host: Host, S: SBoxes, v: bv32)
    ensures F(S, v) == Mix(S, ReadField(host, v, 0), ReadField(host, v, 1), ReadField(host, v, 2), ReadField(host, v, 3))
  {
  }

  /** The reversed form of a reversed sequence is the sequence itself. */
  lemma ReversedReversed(s: seq<bv32>)
    ensures Reversed(Reversed(s)) == s
  {
  }

  /** Inverse of one round: exchanges the halves and strips the round key and f. */
  function Unround(f: bv32 -> bv32, k: bv32, left: bv32, right: bv32): Halves
  {
    Halves(right ^ k, left ^ f(right))
  }

  /** `Unround` undoes `Round`. */
  lemma UnroundRound(f: bv32 -> bv32, k: bv32, l: bv32, r: bv32)
    ensures var z := Round(f, k, l, r); Unround(f, k, z.left, z.right) == Halves(l, r)
  {
  }

  /** Whitening with the two keys exchanged undoes whitening. */
  lemma WhitenTwice(k0: bv32, k1: bv32, x: Halves)
    ensures Whiten(k1, k0, Whiten(k0, k1, x)) == x
  {
  }

  /** One round then whitening by (a1, k) is whitening by (a0, a1) then an inverse round with k. */
  lemma WhitenRound(f: bv32 -> bv32, a0: bv32, a1: bv32, k: bv32, l: bv32, r: bv32)
    ensures Whiten(a1, k, Round(f, a0, l, r)) == Unround(f, k, r ^ a1, l ^ a0)
  {
  }

  /** Appending a key to the network appends an inverse round to its output. */
  lemma {:induction false} NetworkAppend(f: bv32 -> bv32, keys: seq<bv32>, k: bv32, h: Halves)
    requires |keys| >= 2
    ensures var z := FeistelNetwork(f, keys, h); FeistelNetwork(f, keys + [k], h) == Unround(f, k, z.left, z.right)
    decreases |keys|
  {
    if |keys| == 2 {
      assert (keys + [k])[1..] == [keys[1], k];
      WhitenRound(f, keys[0], keys[1], k, h.left, h.right);
    } else {
      assert (keys + [k])[1..] == keys[1..] + [k];
      NetworkAppend(f, keys[1..], k, Round(f, keys[0], h.left, h.right));
    }
  }

  /** The network over the reversed keys undoes the network, for every round function. */
  lemma {:induction false} NetworkReversed(f: bv32 -> bv32, keys: seq<bv32>, h: Halves)
    requires |keys| >= 2
    ensures FeistelNetwork(f, Reversed(keys), FeistelNetwork(f, keys, h)) == h
    decreases |keys|
  {
    if |keys| == 2 {
      assert Reversed(keys) == [keys[1], keys[0]];
      WhitenTwice(keys[0], keys[1], h);
    } else {
      var y := FeistelNetwork(f, keys[1..], Round(f, keys[0], h.left, h.right));
      NetworkReversed(f, keys[1..], Round(f, keys[0], h.left, h.right));
      NetworkAppend(f, Reversed(keys[1..]), keys[0], y);
      UnroundRound(f, keys[0], h.left, h.right);
    }
  }

  /** `DecryptBlock` undoes `EncryptBlock`, for every P-array and S-boxes. */
  lemma DecipherEncipher(P: PArray, S: SBoxes, h: Halves)
    ensures Decipher(P, S, Encipher(P, S, h)) == h
  {
    NetworkReversed(Feistel(S), P, h);
  }

  /** `EncryptBlock` undoes `DecryptBlock`, for every P-array and S-boxes. */
  lemma EncipherDecipher(P: PArray, S: SBoxes, h: Halves)
    ensures Encipher(P, S, Decipher(P, S, h)) == h
  {
    ReversedReversed(P);
    NetworkReversed(Feistel(S), Reversed(P), h);
  }
}
