/**
 * The key schedule of `Blowfish::SetKey` (blowfish.cpp), as functions over
 * the cipher state: the key words, the XOR of the key into the P-array, and
 * the chain of encryptions that overwrites the P-array and then the S-boxes.
 *
 * The P-array and the S-boxes are handled together as one table of 18 + 1024
 * words, P first, so that the chain writes pair m to entries 2m and 2m + 1.
 */
module KeySchedule {
  import opened Converter
  import opened Euclid
  import opened Network

  /** `initial_pary`: the 18 initial P-array words (digits of pi), left abstract. */
  const InitialP: PArray

  /** `initial_sbox`: the 4 x 256 initial S-box words (digits of pi), row-major, left abstract. */
  const InitialS: SBoxes

  /** The P-array followed by the flat S-boxes. */
  type Tables = t: seq<bv32> | |t| == 18 + 1024 witness seq(18 + 1024, _ => 0)

  /** The number of encryptions in the chain: one per pair of table words. */
  const ChainLength: nat := (18 + 1024) / 2

  /** The P-array part of the tables. */
  function PPart(t: Tables): PArray
  {
    t[..18]
  }

  /** The S-box part of the tables. */
  function SPart(t: Tables): SBoxes
  {
    t[18..]
  }

  /**
   * Key word i: the key bytes at positions i * 4 + j, j = 0 .. 3, cycling
   * through the key, packed most significant byte first.
   */
  function KeyWord(key: seq<bv8>, i: nat): bv32
    requires |key| > 0
  {
    var n := |key|;
    BigEndianWord(key[(i * 4) % n], key[(i * 4 + 1) % n], key[(i * 4 + 2) % n], key[(i * 4 + 3) % n])
  }

  /**
   * A P-array word with a key word XORed in. Naming the XOR keeps the
   * quantified loop invariants of the key mixing cheap for the verifier.
   */
  function XorKey(p: bv32, k: bv32): bv32
  {
    p ^ k
  }

  /** The P-array after step 4: word i is XORed with key word i. */
  function MixKey(P: PArray, key: seq<bv8>): PArray
    requires |key| > 0
  {
    seq(18, i requires 0 <= i < 18 => XorKey(P[i], KeyWord(key, i)))
  }

  /** The P-array after XORing in the words of a key buffer, buffer word i % |buffer| into word i. */
  function MixBuffer(P: PArray, buffer: seq<bv32>): PArray
    requires |buffer| > 0
  {
    seq(18, i requires 0 <= i < 18 => XorKey(P[i], buffer[i % |buffer|]))
  }

  /**
   * A buffer of the first key words whose length times four is a multiple of
   * the key length mixes in the same words as cycling straight through the key.
   */
  lemma MixBufferKey(P: PArray, key: seq<bv8>, buffer: seq<bv32>)
    requires |key| > 0 && |buffer| >= 1 && (4 * |buffer|) % |key| == 0
    requires forall j :: 0 <= j < |buffer| ==> buffer[j] == KeyWord(key, j)
    ensures MixBuffer(P, buffer) == MixKey(P, key)
  {
    forall i | 0 <= i < 18
      ensures MixBuffer(P, buffer)[i] == MixKey(P, key)[i]
    {
      KeyWordWrap(key, |buffer|, i);
    }
  }

  /** The tables and the last block after some steps of the chain. */
  datatype Expansion = Expansion(tables: Tables, block: Halves)

  /** `EncryptBlock` under the cipher state held in the tables. */
  const TableCipher: (Tables, Halves) -> Halves := (t: Tables, h: Halves) => Encipher(PPart(t), SPart(t), h)

  /**
   * The first m steps of the chain: step j enciphers the previous block with
   * the tables as updated so far and writes the result to entries 2j and
   * 2j + 1. The chain is written for any block cipher over the tables;
   * `SetKey` uses `TableCipher`.
   */
  function Expand(cipher: (Tables, Halves) -> Halves, t: Tables, h: Halves, m: nat): Expansion
    requires m <= ChainLength
  {
    if m == 0 then Expansion(t, h)
    else
      var e := Expand(cipher, t, h, m - 1);
      var c := cipher(e.tables, e.block);
      Expansion(e.tables[2 * (m - 1) := c.left][2 * (m - 1) + 1 := c.right], c)
  }

  /** The tables `SetKey` leaves behind for the given key. */
  function Schedule(key: seq<bv8>): Tables
    requires |key| > 0
  {
    Expand(TableCipher, MixKey(InitialP, key) + InitialS, Halves(0, 0), ChainLength).tables
  }

  /**
   * `buffer_length = n / GCD(n, 4)` is a valid length, and four times it is
   * a multiple of the key length, so the key words repeat after it.
   */
  lemma KeyBufferLength(n: int, g: int)
    requires n > 0 && g > 0 && Divides(g, n) && Divides(g, 4)
    ensures n / g >= 1 && (4 * (n / g)) % n == 0
  {
    var L, m := n / g, 4 / g;
    assert n == g * L && 4 == g * m;
    assert 4 * L == n * m;
    MultipleDivides(n, m);
  }

  /**
   * Taking key word i modulo the buffer length gives the same word as cycling
   * straight through the key, whenever four times that length is a multiple
   * of the key length.
   */
  lemma KeyWordWrap(key: seq<bv8>, L: nat, i: nat)
    requires |key| > 0 && L >= 1 && (4 * L) % |key| == 0
    ensures KeyWord(key, i % L) == KeyWord(key, i)
  {
    var n, q, r := |key|, i / L, i % L;
    var c := (4 * L) / n;
    assert i == L * q + r;
    assert 4 * L == n * c;
    assert i * 4 == r * 4 + n * (c * q);
    ModAddMultiple(n, r * 4, c * q);
    ModAddMultiple(n, r * 4 + 1, c * q);
    ModAddMultiple(n, r * 4 + 2, c * q);
    ModAddMultiple(n, r * 4 + 3, c * q);
  }

  /** The chain keeps the table length and leaves the entries it has not reached alone. */
  lemma {:induction false} ExpandUnreached(cipher: (Tables, Halves) -> Halves, t: Tables, h: Halves, m: nat, j: nat)
    requires m <= ChainLength && 2 * m <= j < |t|
    ensures Expand(cipher, t, h, m).tables[j] == t[j]
  {
    if m > 0 {
      ExpandUnreached(cipher, t, h, m - 1, j);
    }
  }

  /**
   * After m steps, pair k < m holds the block enciphered at step k: later
   * steps never overwrite an entry once written.
   */
  lemma {:induction false} ExpandWritten(cipher: (Tables, Halves) -> Halves, t: Tables, h: Halves, m: nat, k: nat)
    requires k < m <= ChainLength
    ensures Expand(cipher, t, h, m).tables[2 * k] == Expand(cipher, t, h, k + 1).block.left
    ensures Expand(cipher, t, h, m).tables[2 * k + 1] == Expand(cipher, t, h, k + 1).block.right
  {
    if k < m - 1 {
      ExpandWritten(cipher, t, h, m - 1, k);
    }
  }

  /**
   * Every one of the 18 + 1024 entries is overwritten by the full chain:
   * entry j is a half of the block enciphered at step j / 2.
   */
  lemma {:induction false} ExpandCovers(cipher: (Tables, Halves) -> Halves, t: Tables, h: Halves, j: nat)
    requires j < 18 + 1024
    ensures var b := Expand(cipher, t, h, j / 2 + 1).block;
            Expand(cipher, t, h, ChainLength).tables[j] == if j % 2 == 0 then b.left else b.right
  {
    var k := j / 2;
    ExpandWritten(cipher, t, h, ChainLength, k);
    if j % 2 == 0 {
      assert j == 2 * k;
    } else {
      assert j == 2 * k + 1;
    }
  }

  /**
   * The chain after m steps, reached by a count written another way. A proof
   * helper: it lets a loop's exit state meet a postcondition stated with a
   * literal step count without the verifier unfolding the chain.
   */
  lemma ExpandAt(cipher: (Tables, Halves) -> Halves, t: Tables, h: Halves, m: nat, n: nat, e: Expansion)
    requires m == n <= ChainLength && Expand(cipher, t, h, m) == e
    ensures Expand(cipher, t, h, n) == e
  {
  }

  /** Writing a pair inside the first part of a concatenation (a sequence fact stated apart to keep the chain proofs small). */
  lemma UpdateFront(a: seq<bv32>, b: seq<bv32>, k: nat, x: bv32, y: bv32)
    requires k + 1 < |a|
    ensures (a + b)[k := x][k + 1 := y] == a[k := x][k + 1 := y] + b
  {
  }

  /** Writing a pair inside the second part of a concatenation (a sequence fact stated apart to keep the chain proofs small). */
  lemma UpdateBack(a: seq<bv32>, b: seq<bv32>, k: nat, x: bv32, y: bv32)
    requires k + 1 < |b|
    ensures (a + b)[|a| + k := x][|a| + k + 1 := y] == a + b[k := x][k + 1 := y]
  {
  }

  /** The tables' parts are the P-array and the S-boxes they are made of. */
  lemma Parts(P: PArray, S: SBoxes)
    ensures PPart(P + S) == P && SPart(P + S) == S
  {
    assert PPart(P + S) == P && SPart(P + S) == S;
  }

  /**
   * Step m of the chain over the P-array: the tables' P-array part is
   * enciphered under the current tables and written to entries 2m and 2m + 1.
   */
  lemma ChainP(t0: Tables, h0: Halves, m: nat, P: PArray, S: SBoxes, h: Halves)
    requires m < 9
    requires Expand(TableCipher, t0, h0, m) == Expansion(P + S, h)
    ensures var c := Encipher(P, S, h);
            Expand(TableCipher, t0, h0, m + 1) == Expansion(P[2 * m := c.left][2 * m + 1 := c.right] + S, c)
  {
    var c := Encipher(P, S, h);
    Parts(P, S);
    UpdateFront(P, S, 2 * m, c.left, c.right);
  }

  /** Step 9 + m of the chain: the block goes to entries 2m and 2m + 1 of the S-boxes. */
  lemma ChainS(t0: Tables, h0: Halves, m: nat, P: PArray, S: SBoxes, h: Halves)
    requires m < 512
    requires Expand(TableCipher, t0, h0, 9 + m) == Expansion(P + S, h)
    ensures var c := Encipher(P, S, h);
            Expand(TableCipher, t0, h0, 9 + m + 1) == Expansion(P + S[2 * m := c.left][2 * m + 1 := c.right], c)
  {
    var c := Encipher(P, S, h);
    Parts(P, S);
    UpdateBack(P, S, 2 * m, c.left, c.right);
    assert 2 * (9 + m) == |P| + 2 * m;
  }
}
