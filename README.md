# Blowfish in Dafny

A model of `blowfish.cpp`, a small C++ implementation of the Blowfish block
cipher, together with proofs about it. It covers these parts:

- **Cipher state.** An 18-word P-array `pary_` and four 256-word S-boxes
  `sbox_`.
- **Round function and blocks.** The round function `Feistel`, and the
  16-round block functions `EncryptBlock` and `DecryptBlock`.
- **Key schedule.** `SetKey` copies the initial tables and XORs the cycled
  key words into the P-array. It then overwrites every table word with a
  chain of encryptions that starts from the zero block.
- **Buffer routines.** `Encrypt` and `Decrypt` copy the source buffer into
  the destination. They then transform every full 8-byte block in place and
  leave the trailing bytes alone.
- **Helpers.** The union `Converter32`, which overlays a word with four byte
  fields, and Euclid's `GCD`.

The model follows the shape of the code:

- **Modules.** The imperative parts are the class `BlowfishCipher.Blowfish`,
  whose P-array and S-boxes are arrays, and three methods outside it:
  `Euclid.GCD`, `BlowfishCipher.FillKeyBuffer` and
  `BlowfishCipher.WriteBytes`. Each method is proved against a function of
  these modules:
  - `Network`: the round function and the Feistel network, over sequences;
  - `KeySchedule`: the key words, the key mixing and the encryption chain;
  - `Buffer`: what the block loop does to a byte sequence.
- **Host byte order.** `Converter` declares the host's byte order as a
  parameter. The unknown-host default in the source is little endian, so
  the class uses little endian.

The main results:

- **Round trips.**
  - Block level: `DecryptBlock` undoes `EncryptBlock`, and the other way
    round, for every P-array and every S-boxes.
  - Buffer level: `Decrypt` undoes `Encrypt`, and the other way round.
- **Buffers.** Blocks are transformed independently. Bytes after the last
  full block are never changed.
- **Key schedule.**
  - The `n / GCD(n, 4)` key buffer mixes in exactly the key words obtained
    by cycling straight through the key.
  - The chain overwrites each of the 18 + 1024 table entries exactly once,
    with the block enciphered at step `j / 2`.
- **Converter.** `byte0` is the most significant byte of the word on both
  `#ifdef` branches, when the compiled branch matches the machine's byte
  order.

The code departs from canonical Blowfish in one place, and the model follows
the code:

- **Word order in buffers.** Canonical Blowfish packs each 8-byte block into
  two words big-endian, which other implementations rely on.
- **What the code does.** `Encrypt` and `Decrypt` read the words with a
  `uint32_t` pointer. That means host order: little endian on the default
  host.
- **The lemma.** `Converter.DefaultHostOrder` shows the difference on one
  word.

The key words, by contrast, go through the converter's fields. They are
big-endian on every host whose compiled `#ifdef` branch matches its byte
order.

## Model

| member | source | states |
|---|---|---|
| Converter.ByteOf | blowfish.cpp:21-39 | defines byte k of a word by shift and mask, k = 0 most significant; `Converter.ReadField` proves the union's fields are these bytes |
| Converter.Memory | blowfish.cpp:158-159 | the four bytes of a stored word in address order, in host order; `Converter.LoadMemory` makes it the inverse of `Converter.Load` |
| Converter.BigEndianWord | blowfish.cpp:21-39 | the packed word's bytes, most significant first, are the four arguments |
| Converter.BytesPack | blowfish.cpp:21-39 | packing a word's four bytes gives back the word |
| Converter.Load | blowfish.cpp:158-159 | a word loaded from four bytes is stored back as exactly those bytes |
| Converter.LoadMemory | blowfish.cpp:158-159 | storing a word and loading it back gives the word, on either host |
| Converter.DefaultHostOrder | blowfish.cpp:10-13 | on the default little-endian host a buffer word is not its big-endian packing |
| Converter.FieldOffset | blowfish.cpp:25-38 | each of the four byte fields lies inside the 4-byte union |
| Converter.ReadField | blowfish.cpp:21-39 | field `byte<k>` of a word read through the union is byte k of the word, most significant first, on both `#ifdef` branches |
| Converter.WriteFields | blowfish.cpp:97-105 | storing four bytes into `byte0..byte3` at their field offsets and reading `bit_32` gives their big-endian packing on both hosts |
| Converter.MismatchedBranch | blowfish.cpp:10-13 | on a big-endian machine that compiles the little-endian branch, `byte0` reads the least significant byte and `byte3` the most significant one |
| Euclid.EuclidStep | blowfish.cpp:64-68 | one step of the loop keeps the set of common divisors |
| Euclid.GCD | blowfish.cpp:57-71 | the loop ends with a positive result that divides both arguments, and every positive common divisor divides it and is no larger |
| Network.LookupIndex | blowfish.cpp:254 | stepping j entries on from a row base reads entry base + j |
| Network.FeistelLookups | blowfish.cpp:241-255 | the round function is ((S[a] + S[256+b]) ^ S[512+c]) + S[768+d] for the bytes a..d of the input, most significant first |
| Network.FieldsAreShifts | blowfish.cpp:244-251 | the converter's fields byte0..byte3 are `v >> 24`, `(v >> 16) & 0xFF`, `(v >> 8) & 0xFF` and `v & 0xFF` on either host |
| Network.FeistelReadsFields | blowfish.cpp:241-255 | the round function over the bytes read from the converter's fields is the same on both hosts |
| Network.F | blowfish.cpp:241-255 | defines the round function: the bytes a..d of the input, most significant first, give ((S0[a] + S1[b]) ^ S2[c]) + S3[d] with wrapping additions; `Network.Mix` and `Network.Combine` are the lookups and the arithmetic of line 254; `Network.FeistelLookups` and `BlowfishCipher.Blowfish.Feistel` tie it to the flat S-boxes and the converter's fields |
| Network.FeistelNetwork | blowfish.cpp:198-210 | defines the network: one round per key but the last two, which whiten; `Network.NetworkReversed` proves it is undone by the network over the reversed keys |
| Network.Encipher | blowfish.cpp:195-211 | defines `EncryptBlock`: the network over P[0..17] with the round function of the S-boxes |
| Network.Decipher | blowfish.cpp:218-234 | defines `DecryptBlock`: the network over P[17] down to P[0]; `Network.DecipherEncipher` and `Network.EncipherDecipher` prove the two inverse |
| Network.Box | blowfish.cpp:254 | defines `sbox_[k][j]` as entry 256k + j of the flat S-boxes; `Network.LookupIndex` proves the lookup is that index |
| Network.Round | blowfish.cpp:200-202 | defines one round: left ^= key, right ^= f(left), swap; `Network.UnroundRound` proves `Network.Unround` undoes it |
| Network.Whiten | blowfish.cpp:205-210 | defines the whitening: the swap back, then right ^= k0 and left ^= k1; `Network.WhitenTwice` proves it undoes itself with its keys exchanged |
| Network.Reversed | blowfish.cpp:223 | the decryption key order: entry i is P[17 - i] |
| Network.UnroundRound | blowfish.cpp:200-202 | one round (xor key, xor F, swap) is undone by its inverse round |
| Network.WhitenTwice | blowfish.cpp:206-210 | the final whitening with its two keys exchanged undoes itself |
| Network.NetworkAppend | blowfish.cpp:198-210 | one more round key adds an inverse round at the end of the network |
| Network.NetworkReversed | blowfish.cpp:195-234 | the network over the reversed key sequence undoes the network, for every round function |
| Network.DecipherEncipher | blowfish.cpp:195-234 | `DecryptBlock` undoes `EncryptBlock` for every P-array and S-boxes |
| Network.EncipherDecipher | blowfish.cpp:195-234 | `EncryptBlock` undoes `DecryptBlock` for every P-array and S-boxes |
| KeySchedule.KeyWord | blowfish.cpp:99-105 | defines key word i: the key bytes at 4i..4i+3 modulo the key length, packed most significant first; `BlowfishCipher.FillKeyBuffer` proves the buffer holds these words |
| KeySchedule.MixKey | blowfish.cpp:108-113 | defines the P-array after step 4 as XORed with the straight-cycled key words; `KeySchedule.MixBufferKey` proves the source's wrapped buffer gives the same |
| KeySchedule.MixBuffer | blowfish.cpp:108-113 | defines the P-array with key buffer word `i % buffer_length` XORed into word i; `BlowfishCipher.Blowfish.MixKeyBuffer` is proved to compute it |
| KeySchedule.Expand | blowfish.cpp:117-139 | defines the first m steps of the chain over the P-array followed by the S-boxes, each step enciphering the last block under the current tables (`TableCipher`) and writing entries 2j and 2j+1; `KeySchedule.ExpandCovers` and `KeySchedule.ExpandWritten` state what it leaves behind |
| KeySchedule.Schedule | blowfish.cpp:80-140 | defines the tables `SetKey` leaves: initial P-array mixed with the key, initial S-boxes, then the full 521-step chain from the zero block; `BlowfishCipher.Blowfish.SetKey` is proved to compute it |
| KeySchedule.KeyBufferLength | blowfish.cpp:91 | `byte_length / GCD(byte_length, 4)` is at least 1, and four times it is a multiple of the key length |
| KeySchedule.KeyWordWrap | blowfish.cpp:100-111 | key word `i % buffer_length` equals key word i when four times the buffer length is a multiple of the key length |
| KeySchedule.MixBufferKey | blowfish.cpp:91-113 | XORing the key buffer into the P-array gives the P-array XORed with the key words taken straight from the cycled key |
| KeySchedule.ExpandUnreached | blowfish.cpp:118-139 | after m steps of the chain every entry from 2m on still holds its old value |
| KeySchedule.ExpandWritten | blowfish.cpp:118-139 | once pair k is written at step k, later steps never overwrite it |
| KeySchedule.ExpandCovers | blowfish.cpp:118-139 | after the full chain, entry j of the tables is a half of the block enciphered at step j / 2 |
| KeySchedule.ChainP | blowfish.cpp:122-129 | step m < 9 enciphers the last block under the current tables and writes it to P[2m] and P[2m+1] |
| KeySchedule.ChainS | blowfish.cpp:132-139 | step 9 + m enciphers the last block under the current tables and writes it to S-box words 2m and 2m+1 |
| Buffer.BlockFunction | blowfish.cpp:195-234 | `EncryptBlock` or `DecryptBlock` of a cipher state as a value; `Buffer.BlockFunctionInverse` proves the two directions inverse |
| Buffer.BlockFunctionInverse | blowfish.cpp:195-234 | the block functions of opposite directions undo each other |
| Buffer.BlockBytes | blowfish.cpp:158-162 | one transformed block is again 8 bytes |
| Buffer.BlockRoundTrip | blowfish.cpp:156-163 | a block transformed and stored in place is restored by the inverse block function |
| Buffer.TransformBytes | blowfish.cpp:156-163 | the block loop keeps the buffer length |
| Buffer.TransformInverse | blowfish.cpp:156-163 | a buffer transformed by a block function is restored by its inverse |
| Buffer.TransformRoundTrip | blowfish.cpp:147-188 | `Decrypt` after `Encrypt`, and `Encrypt` after `Decrypt`, give back the bytes, for every cipher state |
| Buffer.TransformAppend | blowfish.cpp:156-163 | blocks are independent: a whole-block prefix is transformed on its own |
| Buffer.TransformBlockAt | blowfish.cpp:156-163 | block i of the output is block i of the input transformed |
| Buffer.TransformAround | blowfish.cpp:156-163 | a buffer's transform is the transform of the blocks before block i, then block i transformed, then the transform of the rest |
| Buffer.TransformTail | blowfish.cpp:156 | the bytes after the last full block are left as they are |
| Buffer.TransformPrefix | blowfish.cpp:156-163 | a prefix one block longer is transformed to the prefix's transform plus that block's transform |
| Buffer.TransformSplit | blowfish.cpp:156-163 | a buffer's transform is the transform of its full blocks followed by its unchanged tail |
| Buffer.TransformDone | blowfish.cpp:156-163 | once all full blocks are done the buffer is the transform of the input |
| Buffer.StoreBlock | blowfish.cpp:158-162 | storing one transformed block keeps the buffer length |
| Buffer.TransformStep | blowfish.cpp:156-163 | transforming block i of a buffer whose first i blocks are done leaves i + 1 blocks done and the rest untouched |
| BlowfishCipher.Blowfish.Feistel | blowfish.cpp:241-255 | the result of `Feistel` on the current S-boxes is the round function F |
| BlowfishCipher.Blowfish.Round | blowfish.cpp:198-204 | one pass of the round loop is one Feistel round with the given key |
| BlowfishCipher.Blowfish.Whitening | blowfish.cpp:205-210 | undoing the last swap and XORing in the last two keys is the whitening step |
| BlowfishCipher.Blowfish.EncryptBlock | blowfish.cpp:195-211 | the halves become the encipherment of the block under the current state |
| BlowfishCipher.Blowfish.DecryptBlock | blowfish.cpp:218-234 | the halves become the decipherment of the block, keys P[17] down to P[0] |
| BlowfishCipher.Blowfish.Encrypt | blowfish.cpp:147-164 | the first `byte_length` bytes of `dst` become the source bytes with every full block encrypted; all other bytes of `dst` are unchanged, also when `dst` is `src` |
| BlowfishCipher.Blowfish.Decrypt | blowfish.cpp:171-188 | the first `byte_length` bytes of `dst` become the source bytes with every full block decrypted; all other bytes of `dst` are unchanged |
| BlowfishCipher.Blowfish.Process | blowfish.cpp:150-163 | the copy followed by the block loop leaves the transform of the source in `dst` |
| BlowfishCipher.Blowfish.ProcessBlocks | blowfish.cpp:156-163 | the block loop transforms `dst` in place and leaves its bytes past `byte_length` alone |
| BlowfishCipher.Blowfish.ProcessBlock | blowfish.cpp:158-162 | one pass of the block loop replaces block i by its transform and keeps every other byte |
| BlowfishCipher.Blowfish.CryptBytes | blowfish.cpp:158-162 | the block read as two host-order words, left first, is transformed and stored back the same way |
| BlowfishCipher.Blowfish.SetKey | blowfish.cpp:80-140 | the P-array and S-boxes become the key schedule of the key: initial tables, key words mixed into P, then the full encryption chain |
| BlowfishCipher.Blowfish.MixKeyBuffer | blowfish.cpp:108-113 | P[i] is XORed with key buffer word `i % buffer_length`, for every i < 18 |
| BlowfishCipher.Blowfish.KeyExpansion | blowfish.cpp:117-139 | the tables become the result of the full 521-step chain from the zero block |
| BlowfishCipher.Blowfish.ExpandPArray | blowfish.cpp:121-129 | the first loop performs the first nine steps of the chain |
| BlowfishCipher.Blowfish.ExpandSBoxes | blowfish.cpp:131-139 | the second loop performs the remaining 512 steps of the chain |
| BlowfishCipher.Blowfish.ExpandPStep | blowfish.cpp:124-128 | one pass of the first loop performs step i of the chain |
| BlowfishCipher.Blowfish.ExpandSStep | blowfish.cpp:134-138 | one pass of the second loop performs step 9 + i of the chain |
| BlowfishCipher.FillKeyBuffer | blowfish.cpp:92-106 | a new buffer of `buffer_length` words whose word i packs the cycled key bytes 4i..4i+3, most significant first |
| BlowfishCipher.WriteBytes | blowfish.cpp:158-162 | storing bytes at an offset replaces exactly those bytes of the buffer |

## Left out

- `initial_pary` and `initial_sbox`: the digits of pi are left out of the source itself. The model keeps them as arbitrary constant tables, `InitialP` and `InitialS`. No test vector is stated, and every result holds for any tables.
- `blowfish.h` is not part of this model. The class declaration, its constructor and its destructor are not visible, so `Blowfish.constructor` is the model's own.
- Converter.ReadField: the host parameter stands both for the `#ifdef` branch compiled and for the machine's byte order, so it assumes the two agree. That holds when the right macro is defined and on a little-endian machine without either macro. A big-endian machine without either macro compiles the little-endian branch; `Converter.MismatchedBranch` shows that `byte0` then reads the least significant byte. The model of `SetKey`'s key words and of `Feistel` does not cover that case.
- Type punning: the `Converter32` union and the `reinterpret_cast` of byte buffers become explicit byte layouts (`Converter.Memory`, `Converter.Load`). The layouts are parameterised by the host's byte order, and the class uses the default, little endian. The big-endian `#ifdef` branch is modelled in `Converter` only.
- Aliasing: `dst` and `src` are either the same array or two distinct arrays. Partly overlapping buffers, for which `memcpy` is undefined, cannot be expressed.
- Memory management: `new`/`delete[]` of the key buffer becomes a freshly allocated array. Alignment of the `uint32_t` accesses into byte buffers is not modelled.
- Integer width: loop counters and index arithmetic are unbounded. The overflow of `i * 4` in `int` for keys of over 500 million bytes is not modelled, nor is the `int`/`size_t` conversion in the block loop's bound. Word arithmetic is 32-bit (`bv32`), so the F additions wrap as in the source.
- BlowfishCipher.Blowfish.SetKey: takes the key as a byte sequence whose length is `byte_length`, and requires a non-empty key. With `byte_length == 0` the source divides by zero in `i % buffer_length`, and a negative length has no meaning. The usual 56-byte maximum key length is not enforced by the source and not modelled.
- BlowfishCipher.Blowfish.Encrypt: requires `0 <= byte_length` and buffers of at least `byte_length` bytes. A negative length makes `memcpy` and the loop bound undefined in the source. The same holds for `Decrypt`.
- Euclid.GCD: requires `larger >= 0` and `smaller > 0`. C++ `%` by zero is undefined, and negative arguments are not modelled because C++ truncates them where Dafny's `%` does not. The only caller passes a positive key length and 4.
- The block methods leave the cipher state unchanged. This follows from their having no `modifies` clause (the source marks them `const`).
- Several methods that split the source's functions into parts are the model's own structure:
  - `SetKey`'s steps and loop bodies: `MixKeyBuffer`, `KeyExpansion`, `ExpandPArray`, `ExpandSBoxes`, `ExpandPStep`, `ExpandSStep` and `FillKeyBuffer`;
  - the round loop body and the final swap and XORs of `EncryptBlock`/`DecryptBlock`: `Round` and `Whitening`;
  - the shared body of `Encrypt` and `Decrypt`: `Process` and its block loop `ProcessBlocks`, the loop body `ProcessBlock`, and within it `CryptBytes` and `WriteBytes`.
  Each piece is a contiguous part of the source.
