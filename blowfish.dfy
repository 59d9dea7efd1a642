/**
 * The `Blowfish` class of blowfish.cpp: the cipher state (the 18-word P-array
 * `pary_` and the four 256-word S-boxes `sbox_`, held row-major in one
 * array) and its operations, each proved against the functions of the
 * modules `Network`, `KeySchedule` and `Buffer`.
 */
module BlowfishCipher {
  import opened Converter
  import opened Euclid
  import opened Network
  import opened KeySchedule
  import opened Buffer

  class Blowfish {
    /** `pary_`. */
    const P: array<bv32>
    /** `sbox_`, with `sbox_[k][j]` at `S[256 * k + j]`. */
    const S: array<bv32>

    ghost predicate Valid()
    {
      P.Length == 18 && S.Length == 1024
    }

    /** A cipher object before any key is set. */
    constructor()
      ensures Valid() && fresh(P) && fresh(S)
    {
      P := new bv32[18];
      S := new bv32[1024];
    }

    /**
     * `Blowfish::Feistel`: the bytes come from the converter's fields byte0 ..
     * byte3, and the result is the round function of the current S-boxes.
     */
    function Feistel(value: bv32): (r: bv32)
      requires Valid()
      reads S
      ensures r == F(S[..], value)
    {
      var a := ReadField(DefaultHost, value, 0);
      var b := ReadField(DefaultHost, value, 1);
      var c := ReadField(DefaultHost, value, 2);
      var d := ReadField(DefaultHost, value, 3);
      FeistelLookups(S[..], value);
      Combine(S[a as int], S[256 + b as int], S[512 + c as int], S[768 + d as int])
    }

    /**
     * One pass of the round loop of `EncryptBlock` and `DecryptBlock`, with
     * round key k: left ^= k, right ^= Feistel(left), then the swap.
     */
    method Round(left: bv32, right: bv32, k: bv32) returns (l: bv32, r: bv32)
      requires Valid()
      ensures Halves(l, r) == Network.Round(Network.Feistel(S[..]), k, left, right)
    {
      l, r := left, right;
      l := l ^ k;
      r := r ^ Feistel(l);
      l, r := r, l;
    }

    /** The end of `EncryptBlock` and `DecryptBlock`: the last swap is undone, then right ^= k0 and left ^= k1. */
    method Whitening(left: bv32, right: bv32, k0: bv32, k1: bv32) returns (l: bv32, r: bv32)
      ensures Halves(l, r) == Whiten(k0, k1, Halves(left, right))
    {
      l, r := right, left;
      r := r ^ k0;
      l := l ^ k1;
    }

    /** `Blowfish::EncryptBlock`: the halves after 16 rounds and the whitening; the state is unchanged. */
    method EncryptBlock(left: bv32, right: bv32) returns (l: bv32, r: bv32)
      requires Valid()
      ensures Halves(l, r) == Encipher(P[..], S[..], Halves(left, right))
    {
      l, r := left, right;
      assert P[..][0..] == P[..];
      var i := 0;
      while i < 16
        invariant 0 <= i <= 16
        invariant FeistelNetwork(Network.Feistel(S[..]), P[..][i..], Halves(l, r)) == Encipher(P[..], S[..], Halves(left, right))
      {
        assert P[..][i..][0] == P[i] && P[..][i..][1..] == P[..][i + 1..];
        l, r := Round(l, r, P[i]);
        i := i + 1;
      }
      assert P[..][16..] == [P[16], P[17]];
      l, r := Whitening(l, r, P[16], P[17]);
    }

    /** `Blowfish::DecryptBlock`: the rounds take P[17] down to P[2], the whitening P[1] and P[0]. */
    method DecryptBlock(left: bv32, right: bv32) returns (l: bv32, r: bv32)
      requires Valid()
      ensures Halves(l, r) == Decipher(P[..], S[..], Halves(left, right))
    {
      ghost var keys := Reversed(P[..]);
      l, r := left, right;
      assert keys[0..] == keys;
      var i := 0;
      while i < 16
        invariant 0 <= i <= 16
        invariant FeistelNetwork(Network.Feistel(S[..]), keys[i..], Halves(l, r)) == Decipher(P[..], S[..], Halves(left, right))
      {
        assert keys[i..][0] == P[17 - i] && keys[i..][1..] == keys[i + 1..];
        l, r := Round(l, r, P[17 - i]);
        i := i + 1;
      }
      assert keys[16..] == [P[1], P[0]];
      l, r := Whitening(l, r, P[1], P[0]);
    }

    /** `EncryptBlock` or `DecryptBlock` of the current cipher state. */
    ghost function Cipher(dir: Direction): Halves -> Halves
      requires Valid()
      reads P, S
    {
      BlockFunction(dir, P[..], S[..])
    }

    /**
     * `Blowfish::Encrypt`: the first `byteLength` bytes of `src` are copied to
     * `dst` (unless they are the same buffer), then every full 8-byte block of
     * `dst` is encrypted in place; the bytes after the last full block, and
     * everything in `dst` past `byteLength`, are left alone.
     */
    method Encrypt(dst: array<bv8>, src: array<bv8>, byteLength: int)
      requires Valid() && 0 <= byteLength <= dst.Length && byteLength <= src.Length
      modifies dst
      ensures dst[..byteLength] == TransformBytes(DefaultHost, Cipher(Encryption), old(src[..byteLength]))
      ensures dst[byteLength..] == old(dst[byteLength..])
    {
      Process(Encryption, dst, src, byteLength);
    }

    /** `Blowfish::Decrypt`: as `Encrypt`, with every full block decrypted. */
    method Decrypt(dst: array<bv8>, src: array<bv8>, byteLength: int)
      requires Valid() && 0 <= byteLength <= dst.Length && byteLength <= src.Length
      modifies dst
      ensures dst[..byteLength] == TransformBytes(DefaultHost, Cipher(Decryption), old(src[..byteLength]))
      ensures dst[byteLength..] == old(dst[byteLength..])
    {
      Process(Decryption, dst, src, byteLength);
    }

    /** The common body of `Encrypt` and `Decrypt`: the copy, then the block loop. */
    method Process(dir: Direction, dst: array<bv8>, src: array<bv8>, byteLength: int)
      requires Valid() && 0 <= byteLength <= dst.Length && byteLength <= src.Length
      modifies dst
      ensures dst[..byteLength] == TransformBytes(DefaultHost, Cipher(dir), old(src[..byteLength]))
      ensures dst[byteLength..] == old(dst[byteLength..])
    {
      if dst != src {
        forall k | 0 <= k < byteLength {
          dst[k] := src[k];
        }
      }
      assert dst[..byteLength] == old(src[..byteLength]) && dst[byteLength..] == old(dst[byteLength..]);
      ProcessBlocks(dir, dst, byteLength);
    }

    /** The block loop: each of the byteLength / 8 full blocks of `dst` is transformed in place. */
    method ProcessBlocks(dir: Direction, dst: array<bv8>, byteLength: nat)
      requires Valid() && byteLength <= dst.Length
      modifies dst
      ensures dst[..byteLength] == TransformBytes(DefaultHost, Cipher(dir), old(dst[..byteLength]))
      ensures dst[byteLength..] == old(dst[byteLength..])
    {
      ghost var input, rest := dst[..byteLength], dst[byteLength..];
      ghost var p, s := P[..], S[..];
      ghost var cipher := BlockFunction(dir, p, s);
      assert dst[..] == TransformBytes(DefaultHost, cipher, input[..0]) + input[0..] + rest;
      var blocks := byteLength / 8;
      assert 8 * blocks <= |input| < 8 * blocks + 8;
      var i := 0;
      while i < blocks
        invariant 0 <= i <= blocks
        invariant dst[..] == TransformBytes(DefaultHost, cipher, input[..8 * i]) + input[8 * i..] + rest
        invariant P[..] == p && S[..] == s
      {
        ghost var d := dst[..];
        TransformStep(DefaultHost, cipher, input, i, rest, d);
        ProcessBlock(dir, dst, i);
        assert P[..] == p && S[..] == s;
        assert Cipher(dir) == cipher;
        i := i + 1;
      }
      TransformDone(DefaultHost, cipher, input, i, rest);
      assert dst[..] == TransformBytes(DefaultHost, cipher, input) + rest;
    }

    /**
     * One pass of the block loop: the 8 bytes at 8i of `dst` are run through
     * the block function and stored back in place.
     */
    method ProcessBlock(dir: Direction, dst: array<bv8>, i: nat)
      requires Valid() && 8 * i + 8 <= dst.Length
      modifies dst
      ensures dst[..] == StoreBlock(DefaultHost, Cipher(dir), old(dst[..]), i)
    {
      var out := CryptBytes(dir, dst[8 * i .. 8 * i + 8]);
      WriteBytes(dst, 8 * i, out);
    }

    /**
     * The block function on one block in memory: the words at offsets 0 and 4,
     * in host order, are `*left` and `*right`, and the results are stored as
     * words the same way.
     */
    method CryptBytes(dir: Direction, b: seq<bv8>) returns (out: seq<bv8>)
      requires Valid() && |b| == 8
      ensures out == BlockBytes(DefaultHost, Cipher(dir), b)
    {
      var left := Load(DefaultHost, b[..4]);
      var right := Load(DefaultHost, b[4..]);
      if dir == Encryption {
        left, right := EncryptBlock(left, right);
      } else {
        left, right := DecryptBlock(left, right);
      }
      out := Memory(DefaultHost, left) + Memory(DefaultHost, right);
    }
    /**
     * `Blowfish::SetKey` with the key bytes `key` (`byte_length` is |key|):
     * the P-array and the S-boxes become the tables of the key schedule.
     * Steps 3, 4 and 5 of the source are the methods `FillKeyBuffer`,
     * `MixKeyBuffer` and `KeyExpansion`.
     */
    method SetKey(key: seq<bv8>)
      requires Valid() && |key| > 0
      modifies P, S
      ensures P[..] + S[..] == Schedule(key)
    {
      var n := |key|;
      // Step 1: copy the initial constants.
      forall i | 0 <= i < P.Length {
        P[i] := InitialP[i];
      }
      forall i | 0 <= i < S.Length {
        S[i] := InitialS[i];
      }
      assert P[..] == InitialP && S[..] == InitialS;

      // Step 2: the key buffer holds n / GCD(n, 4) words, after which the key words repeat.
      var g := GCD(n, 4);
      KeyBufferLength(n, g);
      var bufferLength := n / g;

      // Step 3.
      var keyBuffer := FillKeyBuffer(key, bufferLength);

      // Step 4.
      MixKeyBuffer(keyBuffer);
      MixBufferKey(InitialP, key, keyBuffer[..]);
      assert P[..] + S[..] == MixKey(InitialP, key) + InitialS;

      // Step 5.
      KeyExpansion();
    }

    /** Step 4 of `Blowfish::SetKey`: key buffer word i % |keyBuffer| is XORed into P[i]. */
    method MixKeyBuffer(keyBuffer: array<bv32>)
      requires Valid() && keyBuffer.Length > 0 && keyBuffer != P
      modifies P
      ensures P[..] == MixBuffer(old(P[..]), keyBuffer[..])
    {
      ghost var p := P[..];
      var i := 0;
      while i < P.Length
        invariant 0 <= i <= P.Length
        invariant forall j :: 0 <= j < i ==> P[j] == XorKey(p[j], keyBuffer[j % keyBuffer.Length])
        invariant forall j :: i <= j < P.Length ==> P[j] == p[j]
      {
        var keyWord := keyBuffer[i % keyBuffer.Length];
        P[i] := P[i] ^ keyWord;
        i := i + 1;
      }
    }

    /**
     * Step 5 of `Blowfish::SetKey`: starting from the zero block, each
     * encryption under the current tables overwrites the next pair of P-array
     * entries, then the next pair of S-box entries.
     */
    method KeyExpansion()
      requires Valid()
      modifies P, S
      ensures P[..] + S[..] == Expand(TableCipher, old(P[..] + S[..]), Halves(0, 0), ChainLength).tables
    {
      ghost var t0: Tables := P[..] + S[..];
      var left, right := ExpandPArray(t0);
      left, right := ExpandSBoxes(t0, left, right);
    }

    /** The first loop of step 5: the first nine steps of the chain, which overwrite the P-array. */
    method ExpandPArray(ghost t0: Tables) returns (left: bv32, right: bv32)
      requires Valid() && P[..] + S[..] == t0
      modifies P
      ensures Expand(TableCipher, t0, Halves(0, 0), 9) == Expansion(P[..] + S[..], Halves(left, right))
    {
      left, right := 0, 0;
      var i := 0;
      while i < P.Length / 2
        invariant 0 <= i <= P.Length / 2
        invariant Expand(TableCipher, t0, Halves(0, 0), i) == Expansion(P[..] + S[..], Halves(left, right))
      {
        left, right := ExpandPStep(t0, i, left, right);
        i := i + 1;
      }
      ExpandAt(TableCipher, t0, Halves(0, 0), i, 9, Expansion(P[..] + S[..], Halves(left, right)));
    }

    /** The second loop of step 5: the remaining 512 steps of the chain, which overwrite the S-boxes. */
    method ExpandSBoxes(ghost t0: Tables, left: bv32, right: bv32) returns (l: bv32, r: bv32)
      requires Valid() && Expand(TableCipher, t0, Halves(0, 0), 9) == Expansion(P[..] + S[..], Halves(left, right))
      modifies S
      ensures Expand(TableCipher, t0, Halves(0, 0), ChainLength) == Expansion(P[..] + S[..], Halves(l, r))
    {
      assert P != S;
      l, r := left, right;
      var i := 0;
      while i < S.Length / 2
        invariant 0 <= i <= S.Length / 2
        invariant Expand(TableCipher, t0, Halves(0, 0), 9 + i) == Expansion(P[..] + S[..], Halves(l, r))
      {
        l, r := ExpandSStep(t0, i, l, r);
        i := i + 1;
      }
      ExpandAt(TableCipher, t0, Halves(0, 0), 9 + i, ChainLength, Expansion(P[..] + S[..], Halves(l, r)));
    }

    /** One pass of the first loop of step 5: block i of the chain is enciphered and written to P[2i] and P[2i + 1]. */
    method ExpandPStep(ghost t0: Tables, i: nat, left: bv32, right: bv32) returns (l: bv32, r: bv32)
      requires Valid() && i < 9
      requires Expand(TableCipher, t0, Halves(0, 0), i) == Expansion(P[..] + S[..], Halves(left, right))
      modifies P
      ensures Expand(TableCipher, t0, Halves(0, 0), i + 1) == Expansion(P[..] + S[..], Halves(l, r))
    {
      ghost var p := P[..];
      ChainP(t0, Halves(0, 0), i, P[..], S[..], Halves(left, right));
      l, r := EncryptBlock(left, right);
      P[i * 2] := l;
      P[i * 2 + 1] := r;
      assert P[..] == p[2 * i := l][2 * i + 1 := r];
    }

    /** One pass of the second loop of step 5: block 9 + i of the chain is enciphered and written to S[2i] and S[2i + 1]. */
    method ExpandSStep(ghost t0: Tables, i: nat, left: bv32, right: bv32) returns (l: bv32, r: bv32)
      requires Valid() && i < 512
      requires Expand(TableCipher, t0, Halves(0, 0), 9 + i) == Expansion(P[..] + S[..], Halves(left, right))
      modifies S
      ensures Expand(TableCipher, t0, Halves(0, 0), 9 + i + 1) == Expansion(P[..] + S[..], Halves(l, r))
    {
      ghost var s := S[..];
      ChainS(t0, Halves(0, 0), i, P[..], S[..], Halves(left, right));
      l, r := EncryptBlock(left, right);
      S[i * 2] := l;
      S[i * 2 + 1] := r;
      assert S[..] == s[2 * i := l][2 * i + 1 := r];
    }
  }

  /**
   * Step 3 of `Blowfish::SetKey`: a new buffer of `bufferLength` words in
   * which word i is made of the key bytes at i * 4 .. i * 4 + 3, cycling
   * through the key, stored into the converter's fields byte0 .. byte3.
   */
  method FillKeyBuffer(key: seq<bv8>, bufferLength: nat) returns (keyBuffer: array<bv32>)
    requires |key| > 0
    ensures fresh(keyBuffer) && keyBuffer.Length == bufferLength
    ensures forall j :: 0 <= j < bufferLength ==> keyBuffer[j] == KeyWord(key, j)
  {
    var n := |key|;
    keyBuffer := new bv32[bufferLength];
    var i := 0;
    while i < bufferLength
      invariant 0 <= i <= bufferLength
      invariant forall j :: 0 <= j < i ==> keyBuffer[j] == KeyWord(key, j)
    {
      keyBuffer[i] := WriteFields(DefaultHost, [key[(i * 4) % n], key[(i * 4 + 1) % n], key[(i * 4 + 2) % n], key[(i * 4 + 3) % n]]);
      i := i + 1;
    }
  }

  /** Stores the bytes of `out` into `dst` from offset `at` on. */
  method WriteBytes(dst: array<bv8>, at: nat, out: seq<bv8>)
    requires at + |out| <= dst.Length
    modifies dst
    ensures dst[..] == old(dst[..at]) + out + old(dst[at + |out|..])
  {
    ghost var d := dst[..];
    forall k | 0 <= k < |out| {
      dst[at + k] := out[k];
    }
    assert dst[..] == d[..at] + out + d[at + |out|..] by {
      forall k | 0 <= k < dst.Length
        ensures dst[k] == (d[..at] + out + d[at + |out|..])[k]
      {
        if k < at {
        } else if k < at + |out| {
        } else {
        }
      }
    }
  }
}
