# Four small ciphers and codecs, modelled in Dafny

This project models four independent components of a collection of Rust
programs and proves properties of the models:

- **DES** (`src/main.rs`). This is the Data Encryption Algorithm of FIPS PUB 46-3. It covers:
  - the MSB-first byte/bit conversion;
  - the PC-1/PC-2 key schedule with its 16 left rotations;
  - IP and IP⁻¹, the expansion E, the eight S-boxes and the permutation P;
  - the 16-round Feistel loop;
  - an electronic-codebook driver that fills a short last block with `'.'` (byte 46).
- **Huffman compressor** (`lab06/src/main.rs`). It covers:
  - frequency counting and the greedy two-smallest merge loop;
  - the code map (left = `false`, right = `true`);
  - bit packing with a trailing padding-length byte;
  - the tree-walking decompressor.
- **Rotor machine** (`lab02/src/enigma.rs`). It covers:
  - rotors with an offset and an inverse table;
  - an involutive reflector;
  - odometer stepping;
  - `run` over bytes.
- **Padding and block framing** (`lab04v2/src/main.rs`). It covers:
  - `make_match_size` / `make_original_size`, which add `r` copies of byte `r` and remove them again;
  - `size()`;
  - the little-endian per-chunk framing of `RsaPublic::encrypt` / `RsaPrivate::decrypt`. The modular exponentiation is a parameter of this framing.

Modules (one concept each):

| module | file | what |
|---|---|---|
| `Wrappers` | wrappers.dfy | `Option` |
| `Bits` | bits.dfy | `byte`, MSB-first `bytes_to_binary` / `binary_to_bytes` (the same conversion in both DES and Huffman; the DES program's `'0'`/`'1'` characters are `false`/`true`) |
| `DesTables` | des_tables.dfy | the source's tables (0-based), and the table facts checked by computation |
| `Des` | des.dfy | key schedule, cipher function f, Feistel network (generic in the round function), block cipher, instantiation of the ECB driver |
| `Ecb` | ecb.dfy | `encrypt` / `decrypt` chunking, for any 8-byte block function |
| `HuffmanTree` | huffman_tree.dfy | `Tree`, `from_data` (tally, leaves, merge loop) |
| `HuffmanCodec` | huffman_codec.dfy | `to_encode_map`, `compress`, `_decompress`, `decomress` |
| `Enigma` | enigma.dfy | `Rotor`, `Reflector`, `Enigma` |
| `Padding` | padding.dfy | `make_match_size`, `make_original_size` |
| `ChunkFraming` | framing.dfy | `from_bytes_le` / `to_bytes_le`, `bits()`, `size()`, chunk framing |

Each panic in the source is modelled in one of two ways:
- **As a precondition**, when it is a plain length or range demand. Examples: a key shorter than 8 bytes, a ciphertext that is not a whole number of blocks, block size 0, a pad length above 255, and `make_original_size` on empty data (`last().unwrap()`) or on data whose last byte exceeds its length (the subtraction underflows, lab04v2/src/main.rs:203-207). That last one depends on the data, but only on its final byte and its length, so `Padding.MakeOriginalSize` states it as its `requires`.
- **As `None`**, when it depends on the data. Examples: empty Huffman input, a byte with no code, a malformed compressed stream, and the endless loop of `decomress` under a single-leaf tree.

The Huffman tree's `count()` is the datatype field `count`.

## Model

| member | source | states |
|---|---|---|
| Bits.BytesToBits | src/main.rs:1-10 | eight bits per byte; `BytesToBitsAt` gives their values and `BitsToBytesOfBytesToBits` the inverse |
| Bits.BitsToBytes | src/main.rs:12-19 | one byte per started group of eight bits; `BytesToBitsOfBitsToBytes` shows it undone by `bytes_to_binary` on whole bytes |
| Bits.BytesToBitsAt | src/main.rs:1-10 | bit `j` of byte `i` in the output of `bytes_to_binary` is `(s[i] >> (7 - j)) & 1`: eight bits per byte, most significant first |
| Bits.BytesToBitsBlock | lab06/src/main.rs:6-10 | in the Huffman program's conversion, bits `8i..8i+8` are the eight bits of byte `i`, most significant first |
| Bits.BitsToBytesOfBytesToBits | src/main.rs:1-19 | `binary_to_bytes` inverts `bytes_to_binary` on every byte string |
| Bits.BytesToBitsOfBitsToBytes | lab06/src/main.rs:6-16 | `bytes_to_binary` inverts `binary_to_bytes` on every whole number of bytes |
| Bits.BitsToBytesAppend | lab06/src/main.rs:12-16 | `binary_to_bytes` works chunk by chunk: a prefix of whole bytes converts independently of what follows |
| DesTables.Pc1Table | src/main.rs:22-36 | PC-1 reads 56 distinct key bits, all below 63, and skips exactly the parity bits 7, 15, …, 63 |
| DesTables.Pc2Table | src/main.rs:39-48 | PC-2 reads 48 distinct bits, the first 24 from C (below 28) and the last 24 from D, and every bit but eight |
| DesTables.ShiftsTable | src/main.rs:50 | the 16 shifts are 1 or 2 and sum to 28 |
| DesTables.IpTables | src/main.rs:69-93 | the tables of `ip` and `ipl1` are inverse permutations of 64 positions |
| DesTables.ExpansionTable | src/main.rs:96-103 | E reads 48 positions of the 32-bit half and reads every one of them |
| DesTables.PermutationTable | src/main.rs:272-277 | the table of `permutation_p` is a bijection on 32 positions |
| DesTables.SboxTable | src/main.rs:106-251 | `SBLOCKS` is 8 × 16 × 4 and every entry is below 16 |
| Des.Permute | src/main.rs:69-80 | a table permutation: output `i` is input `table[i]` |
| Des.XorCancel | src/main.rs:291-303 | XOR with the same block twice cancels |
| Des.Xor | src/main.rs:291-303 | bit `i` of the result is set exactly when bit `i` of the two equal-length blocks differ; `XorCancel` gives its cancellation |
| Des.Pc1 | src/main.rs:22-36 | C0 is key bits `PC1[0..28]`, D0 is bits `PC1[28..56]`, and every non-parity key bit `p` lands in C0 or D0 at position `PC1_POSITION[p]` |
| Des.Pc1IgnoresOnlyParity | src/main.rs:22-36 | two 64-bit keys give the same C and D exactly when they agree on every non-parity bit |
| Des.Pc2 | src/main.rs:39-48 | round-key bit `i` is bit `PC2[i]` of C‖D, and every bit PC-2 does not drop appears in the key at `PC2_POSITION[p]` |
| Des.Pc2Halves | src/main.rs:39-48 | the first half of the round key depends only on C, the second only on D |
| Des.Pc2KeepsAllButEight | src/main.rs:39-48 | two C‖D values give the same round key exactly when they agree outside the eight dropped positions |
| Des.RotateLeft | src/main.rs:57-58 | element `i` of the result is element `i + k` of the input, wrapping past the end; the length is kept |
| Des.RotateLeftTwice | src/main.rs:57-59 | rotating by `a` then by `b` is rotating by `a + b` |
| Des.HalvesReturnAfterSchedule | src/main.rs:50-63 | after all sixteen rotations C and D are back at their PC-1 values |
| Des.RoundKey | src/main.rs:55-63 | round key `i` in closed form has 48 bits |
| Des.ScheduledKey | src/main.rs:52-66 | the closed-form round key `i` of a key of at least eight bytes has 48 bits |
| Des.RotateAndCompress | src/main.rs:55-65 | the loop yields 16 keys; key `i` is PC-2 of C and D rotated by the first `i + 1` shifts |
| Des.GenerateKeys | src/main.rs:52-66 | 16 round keys of 48 bits, key `i` being PC-2 of the PC-1 halves rotated by the first `i + 1` shifts |
| Des.ScheduleIgnoresBytesPastEight | src/main.rs:52-54 | only the first eight key bytes matter |
| Des.Expansion | src/main.rs:96-103 | bit `i` of E(R) is bit `E[i]` of R, and every bit `j` of R appears at position `E_SOURCE[j]` |
| Des.ExpansionInjective | src/main.rs:96-103 | E loses no bit: equal expansions come from equal halves |
| Des.SboxLookup | src/main.rs:256-264 | the S-box entry at the column of bits 1..4 and the row of bits 0 and 5 is below 16, so the source's four-digit binary format holds it exactly |
| Des.Substitution | src/main.rs:253-269 | 48 bits become 32; output nibble `g`, read as a number, is S-box `g` at the column of bits 1..4 of input group `g` and the row of its bits 0 and 5 |
| Des.PermutationP | src/main.rs:272-277 | bit `i` is input bit `P[i]`, and input bit `j` appears at position `P_INVERSE[j]` |
| Des.PermutationPBijective | src/main.rs:272-277 | `permutation_p` is undone by its inverse table and is injective |
| Des.CipherF | src/main.rs:284-303 | f(R, K) has 32 bits for a 32-bit R and a 48-bit K; the Feistel inverse below does not depend on what else it computes |
| Des.CipherFIsRoundFunction | src/main.rs:284-303 | f maps a 32-bit half and a 48-bit key to 32 bits |
| Des.Feistel | src/main.rs:279-311 | every round keeps both halves at 32 bits; `FeistelSnoc` describes one round and `FeistelReversed` the inverse |
| Des.FeistelSnoc | src/main.rs:283-308 | one more round maps (L, R) to (R, f(R, K) ⊕ L) |
| Des.FeistelReversed | src/main.rs:279-311 | for any round function, running the rounds on (R, L) with the keys reversed gives back (L, R) |
| Des.RoundOrder | src/main.rs:287 | round `i` uses key `i` when enciphering and key `15 - i` when deciphering, each 48 bits |
| Des.RoundOrderReversed | src/main.rs:287 | the decryption key order `keys[15 - i]` is the encryption order reversed |
| Des.Rounds | src/main.rs:279-311 | the sixteen rounds turn a 64-bit block into two 32-bit halves; `RoundsReversed` gives their inverse |
| Des.InitialPermutation | src/main.rs:69-80 | output bit `i` is input bit `IP[i]`, and input bit `j` sits at output `IPL1[j]` |
| Des.FinalPermutation | src/main.rs:83-93 | output bit `i` is input bit `IPL1[i]`, and input bit `j` sits at output `IP[j]` |
| Des.IpInverse | src/main.rs:69-93 | `ipl1` undoes `ip` and `ip` undoes `ipl1` on 64 bits |
| Des.RoundsReversed | src/main.rs:279-311 | swapping the halves and running the rounds in the other direction restores the block |
| Des.CryptBits | src/main.rs:323-327 | 64 bits in, 64 bits out; `CryptBitsInverse` gives the inverse |
| Des.CryptBitsInverse | src/main.rs:323-327 | IP, the rounds, the swap and IP⁻¹ in one direction are undone by the other direction |
| Des.CryptBlock | src/main.rs:323-328 | 8 bytes in, 8 bytes out; `CryptBlockInverse` gives the inverse |
| Des.CryptBlockInverse | src/main.rs:323-343 | deciphering an 8-byte block undoes enciphering it, and the other way round |
| Des.CryptBlockInjective | src/main.rs:323-328 | two blocks encipher alike exactly when they are equal |
| Des.Encipher | src/main.rs:318-328 | a block function that agrees with the encrypting `CryptBlock` on every 8-byte block |
| Des.Decipher | src/main.rs:336-343 | a block function that agrees with the decrypting `CryptBlock` on every 8-byte block |
| Des.CipherPair | src/main.rs:313-347 | the block functions of `encrypt` and `decrypt` undo each other on every block |
| Des.Encrypt | src/main.rs:313-332 | the ciphertext is as long as the message padded with `'.'` to whole blocks |
| Des.Decrypt | src/main.rs:334-347 | the plaintext is as long as the whole-block ciphertext |
| Des.DecryptEncrypt | src/main.rs:313-347 | `decrypt(encrypt(m))` is `m` followed by the `'.'` padding of its last block |
| Des.EncryptDecrypt | src/main.rs:313-347 | `encrypt(decrypt(c))` is `c` for any whole number of blocks |
| Des.HelloWorldRoundTrip | src/main.rs:369-377 | for every key schedule, "hello world!\n" comes back as "hello world!\n..." |
| Ecb.FillBlock | src/main.rs:319-322 | the buffer holds the chunk followed by byte 46 up to eight bytes |
| Ecb.PadWithDots | src/main.rs:318-322 | the message padded with byte 46 to the next multiple of 8, fewer than 8 added |
| Ecb.Encrypt | src/main.rs:313-332 | the ciphertext is as long as the dot-padded message |
| Ecb.Decrypt | src/main.rs:334-347 | the output is as long as the input |
| Ecb.EncryptPads | src/main.rs:318-322 | enciphering a message is enciphering its dot-padded form |
| Ecb.EncryptBlockwise | src/main.rs:318-329 | ciphertext block `j` is the block function applied to padded block `j` alone |
| Ecb.EncryptConcat | src/main.rs:314-318 | a whole-block prefix is enciphered independently of what follows |
| Ecb.DecryptEncrypt | src/main.rs:313-347 | for any pair of inverse block functions, deciphering the ciphertext gives the dot-padded message |
| Ecb.EncryptDecrypt | src/main.rs:313-347 | for any pair of inverse block functions, enciphering undoes deciphering on whole blocks |
| HuffmanTree.CountIsSize | lab06/src/main.rs:82-86 | in a consistent tree the count is the number of bytes below it, and it is positive |
| HuffmanTree.Tally | lab06/src/main.rs:36-47 | entry `b` of the tally is the number of occurrences of `b` |
| HuffmanTree.LeavesFrom | lab06/src/main.rs:49-52 | the leaves are non-empty, in ascending letter order, with their tallies as counts |
| HuffmanTree.InitialForest | lab06/src/main.rs:36-52 | every initial leaf is consistent: it has a positive count |
| HuffmanTree.InitialForestBags | lab06/src/main.rs:36-52 | the leaves stand for exactly the bytes of the data, one leaf per distinct byte |
| HuffmanTree.Scan | lab06/src/main.rs:55-71 | the scan ends with `min1` at a smallest count and `min2` at a smallest count among the others |
| HuffmanTree.TwoSmallest | lab06/src/main.rs:55-71 | two distinct indices: the first at a smallest count, the second at a smallest count among the rest |
| HuffmanTree.MergePair | lab06/src/main.rs:55-77 | the two indices taken out, larger first, have counts no larger than any other tree's |
| HuffmanTree.RemoveAt | lab06/src/main.rs:79-80 | `drain` of one index keeps every other tree in order |
| HuffmanTree.MergeStep | lab06/src/main.rs:54-87 | one pass leaves one tree fewer; `MergeStepKeeps` states what the trees are |
| HuffmanTree.MergeStepKeeps | lab06/src/main.rs:54-87 | one pass replaces the two smallest trees by a node with the summed count; the other trees are kept |
| HuffmanTree.MergeStepBag | lab06/src/main.rs:79-86 | a pass keeps the bytes the forest stands for |
| HuffmanTree.MergeStepLetters | lab06/src/main.rs:79-86 | a pass keeps the leaves of the forest |
| HuffmanTree.Build | lab06/src/main.rs:54-89 | the loop ends in one consistent tree with the forest's bytes and leaves, and that tree is a node when there were two trees or more |
| HuffmanTree.FromData | lab06/src/main.rs:35-90 | there is a tree exactly when the data is non-empty |
| HuffmanTree.FromDataContents | lab06/src/main.rs:35-90 | the tree's leaves are the distinct bytes, each once, with their occurrence counts; the root count is the data length |
| HuffmanTree.FromDataLeaf | lab06/src/main.rs:49-89 | the tree is a single leaf exactly when the data repeats one byte |
| HuffmanCodec.Codes | lab06/src/main.rs:103-120 | every code below a prefix starts with that prefix |
| HuffmanCodec.EncodeMap | lab06/src/main.rs:122-127 | a byte has a code exactly when it is the letter of a leaf |
| HuffmanCodec.CodesKeys | lab06/src/main.rs:103-127 | a byte has a code exactly when it is a leaf of the tree |
| HuffmanCodec.CodesShift | lab06/src/main.rs:103-120 | the codes under a prefix are the prefix followed by the subtree's own codes |
| HuffmanCodec.EncodeMapNode | lab06/src/main.rs:112-118 | under a node, a code starts with `true` exactly when its leaf is in the right subtree |
| HuffmanCodec.CodesPrefixFree | lab06/src/main.rs:103-127 | no code is a prefix of another, and under a node no code is empty |
| HuffmanCodec.Walk | lab06/src/main.rs:150-168 | a walk reads a prefix of the bits, at least one bit below a node, none at a leaf |
| HuffmanCodec.WalkCode | lab06/src/main.rs:150-168 | walking a byte's code followed by anything returns that byte and the rest |
| HuffmanCodec.DecodeAll | lab06/src/main.rs:176-180 | under a single leaf, decoding succeeds only on no bits |
| HuffmanCodec.EncodeBits | lab06/src/main.rs:131-140 | the code bits exist exactly when every byte has a code |
| HuffmanCodec.PadCount | lab06/src/main.rs:142 | between 1 and 8 zero bits are added, making a whole number of bytes |
| HuffmanCodec.Pack | lab06/src/main.rs:142-147 | the packed bits fill whole bytes: the code bits, then `n` zero bits, then a last byte that reads back as `n` |
| HuffmanCodec.Unpack | lab06/src/main.rs:171-173 | `None` exactly when there are fewer than 8 bits or fewer than `8 + n`, `n` being the last eight bits read as a number; otherwise the first `len - 8 - n` bits |
| HuffmanCodec.Compress | lab06/src/main.rs:129-148 | compression succeeds exactly when every byte has a code |
| HuffmanCodec.Decompress | lab06/src/main.rs:170-183 | empty input is an error (the index underflow); under a leaf root nothing but the empty result comes back; under a node root at most one byte per payload bit |
| HuffmanCodec.UnpackPack | lab06/src/main.rs:142-147 | dropping the last `8 + n` bits removes exactly what `compress` appended |
| HuffmanCodec.DecodeEncode | lab06/src/main.rs:150-183 | under a node, decoding the code bits of the data gives the data |
| HuffmanCodec.DecompressCompress | lab06/src/main.rs:129-183 | under a node, `decomress(compress(d)) == d` whenever every byte of `d` has a code |
| HuffmanCodec.RoundTrip | lab06/src/main.rs:257-267 | with the tree built from the data, the round trip holds for data with two or more distinct bytes |
| HuffmanCodec.HelloWorldRoundTrip | lab06/src/main.rs:257-267 | the unit test's "hello world!\n" survives the round trip |
| HuffmanCodec.SingleByteLosesData | lab06/src/main.rs:103-183 | data repeating one byte compresses to the bytes 0 and 8 and decompresses to nothing |
| HuffmanCodec.FromDataFixed | lab06/src/main.rs:89 | with a lone leaf put below a node, every non-empty input gets a node root and every byte a code |
| HuffmanCodec.RoundTripFixed | lab06/src/main.rs:257-267 | with the corrected tree, the round trip holds for all non-empty data |
| Enigma.BuildBackward | lab02/src/enigma.rs:13-21 | the loop makes `backward[straight[i]] == i` for all `i`, and `straight[backward[y]] == y` |
| Enigma.NewRotor | lab02/src/enigma.rs:12-29 | a new rotor is valid, at position 0, with the given wiring |
| Enigma.BackwardInverts | lab02/src/enigma.rs:19-21 | the inverse table inverts the wiring from the other side too |
| Enigma.Rotate | lab02/src/enigma.rs:31-34 | the position advances by one mod `len`; the result is true exactly when the rotor was at `len - 1` |
| Enigma.Rotated | lab02/src/enigma.rs:36-38 | on the alphabet, `x + pos`, wrapped once past `len` |
| Enigma.Unrotated | lab02/src/enigma.rs:40-42 | on the alphabet, `x - pos`, wrapped once below 0 |
| Enigma.RotatedUnrotated | lab02/src/enigma.rs:36-42 | `_rotated` and `_unrotated` undo each other on the alphabet |
| Enigma.GetStraight | lab02/src/enigma.rs:44-46 | the result is a symbol of the rotor's alphabet; the next two rows give its inverse |
| Enigma.GetBackward | lab02/src/enigma.rs:48-50 | the result is a symbol of the rotor's alphabet |
| Enigma.BackwardStraight | lab02/src/enigma.rs:44-50 | at any position `get_backward(get_straight(x)) == x` |
| Enigma.StraightBackward | lab02/src/enigma.rs:44-50 | at any position `get_straight(get_backward(x)) == x` |
| Enigma.Pairing | lab02/src/enigma.rs:69-91 | the pairing loop ends in an involution on the alphabet, with the reserved symbol fixed |
| Enigma.NewReflector | lab02/src/enigma.rs:58-92 | every reflector entry is a symbol and `reflects[reflects[x]] == x`; for an odd alphabet the reserved symbol maps to itself |
| Enigma.EvenReflectorFixedPoints | lab02/src/enigma.rs:79-86 | a draw equal to the current symbol gives a fixed point even for an even alphabet |
| Enigma.GetReflect | lab02/src/enigma.rs:94-96 | reflecting stays in the alphabet and reflecting back gives the symbol |
| Enigma.Forward | lab02/src/enigma.rs:120-122 | the pass through the rotors in order stays in the alphabet |
| Enigma.Backward | lab02/src/enigma.rs:126-128 | the pass through the rotors in reverse stays in the alphabet |
| Enigma.BackwardForward | lab02/src/enigma.rs:120-128 | the backward pass through the rotors undoes the forward pass, and the other way round |
| Enigma.Wire | lab02/src/enigma.rs:117-128 | the wiring at the current positions maps a symbol to a symbol; `WireInvolution` shows it is its own inverse |
| Enigma.WireInvolution | lab02/src/enigma.rs:117-128 | at fixed positions the wiring is an involution on the alphabet |
| Enigma.Step | lab02/src/enigma.rs:130-134 | stepping changes only rotor positions |
| Enigma.StepAdvances | lab02/src/enigma.rs:130-134 | rotor `k` advances exactly when every rotor before it was at its last position |
| Enigma.StepCounts | lab02/src/enigma.rs:130-134 | stepping counts the positions up by one as a mixed-radix number, wrapping to 0 after the last state |
| Enigma.ProcessOne | lab02/src/enigma.rs:117-137 | the output is a symbol, the machine stays valid, the reflector is kept and the rotors are stepped once |
| Enigma.Run | lab02/src/enigma.rs:139-148 | `run` keeps the length; every output fits a byte (alphabet of 256, line 107) |
| Enigma.RunState | lab02/src/enigma.rs:139-148 | the state after a run depends only on the input length |
| Enigma.RunSteps | lab02/src/enigma.rs:130-148 | after a run the rotors have stepped once per input byte |
| Enigma.StepTimesCounts | lab02/src/enigma.rs:130-134 | stepping `n` times adds `n` to the positions read as a number, modulo the number of distinct positions |
| Enigma.RunOdometer | lab02/src/enigma.rs:130-148 | after a run of `n` bytes the positions read as a number have advanced by `n`, modulo the number of distinct positions |
| Enigma.RunTwice | lab02/src/enigma.rs:105-148 | two machines in the same initial state: the second turns the first one's output back into the input |
| Padding.PadLength | lab04v2/src/main.rs:198 | `r` is between 1 and `target`, and it completes a whole block |
| Padding.MakeMatchSize | lab04v2/src/main.rs:197-201 | the message is kept as prefix, extended to a multiple of `target` by 1 to `target` bytes, each equal to the count |
| Padding.MakeOriginalSize | lab04v2/src/main.rs:203-207 | the result is the data without as many trailing bytes as the last byte says |
| Padding.MakeMatchSizePads | lab04v2/src/main.rs:197-201 | padding produces a well-formed padded message |
| Padding.UnpadPad | lab04v2/src/main.rs:197-207 | for block sizes 1 to 255, removing the padding gives the message back |
| Padding.PadUnpad | lab04v2/src/main.rs:197-207 | a well-formed padded message is padded back to itself after unpadding |
| ChunkFraming.FromBytesLE | lab04v2/src/main.rs:104 | a chunk of `k` bytes reads as a number below 256^k |
| ChunkFraming.ToBytesLE | lab04v2/src/main.rs:105 | `to_bytes_le` has at least one byte, no trailing zero byte, and reads back as the number |
| ChunkFraming.ZeroExtend | lab04v2/src/main.rs:106 | the bytes are kept as prefix and followed by zeros up to `k` bytes; nothing is cut |
| ChunkFraming.FromBytesLEZeroExtend | lab04v2/src/main.rs:104-106 | zero-extending a block does not change its number |
| ChunkFraming.ToBytesLEWidth | lab04v2/src/main.rs:105-106 | a number below 256^k needs at most `k` bytes, so the block is exactly `k` bytes |
| ChunkFraming.CanonicalChunk | lab04v2/src/main.rs:145-147 | a chunk is recovered from its number by writing it back and zero-extending it to its length |
| ChunkFraming.BitLength | lab04v2/src/main.rs:113 | `bits()` is the number of binary digits: 2^(b-1) ≤ n < 2^b |
| ChunkFraming.Size | lab04v2/src/main.rs:112-114 | `8·size ≤ bits < 8·size + 8`, so a chunk of `size()` bytes has no more binary digits than the modulus |
| ChunkFraming.Frame | lab04v2/src/main.rs:101-109 | framing gives no bytes exactly for no data; `FrameConcat` and `FrameRoundTrip` describe the blocks |
| ChunkFraming.FrameConcat | lab04v2/src/main.rs:102-109 | a prefix of whole chunks is framed independently of what follows |
| ChunkFraming.BlockRoundTrip | lab04v2/src/main.rs:103-107 | one block framed by `g` and read back by its inverse `h` gives the chunk |
| ChunkFraming.FrameRoundTrip | lab04v2/src/main.rs:101-151 | on whole chunks, when `h` undoes `g` on the chunk values and the results fit the width, decryption framing undoes encryption framing |
| ChunkFraming.Encrypt | lab04v2/src/main.rs:101-109 | the ciphertext is empty exactly when the data is |
| ChunkFraming.Decrypt | lab04v2/src/main.rs:142-151 | the plaintext is empty exactly when the ciphertext is |
| ChunkFraming.RoundTripBelowModulus | lab04v2/src/main.rs:197-207 | pad, encrypt, decrypt and unpad give the data back when every chunk reads below the modulus (test at lines 276-283) |
| ChunkFraming.FullChunkReachesModulus | lab04v2/src/main.rs:112-114 | for a modulus with a whole number of bytes, a chunk of `size()` bytes can read as a number ≥ n |
| ChunkFraming.SmallKeyChunk | lab04v2/src/main.rs:101-114 | modulus 200: `size()` is 1 and the chunk 255 is not below the modulus |
| ChunkFraming.InSize | lab04v2/src/main.rs:112-114 | for a positive modulus, 256^InSize(n) ≤ n, so every chunk of `InSize(n)` bytes reads below the modulus |
| ChunkFraming.OutSize | lab04v2/src/main.rs:112-114 | n < 256^OutSize(n), so every residue fits an output block |
| ChunkFraming.EncryptFixed | lab04v2/src/main.rs:101-109 | with the corrected sizes, the ciphertext is empty exactly when the data is |
| ChunkFraming.DecryptFixed | lab04v2/src/main.rs:142-151 | with the corrected sizes, the plaintext is empty exactly when the ciphertext is |
| ChunkFraming.RoundTripFixed | lab04v2/src/main.rs:101-151 | with those sizes, pad, encrypt, decrypt and unpad give all data back whenever the exponentiations undo each other below the modulus |

## Left out

- The `main` functions, the clap CLI and the file reads and writes (src/main.rs:349-362, lab06/src/main.rs:196-250, lab04v2/src/main.rs:158-261, lab02/src/main.rs). They are I/O plumbing. The padding-then-encrypt and decrypt-then-unpad order of the RSA commands is kept in `ChunkFraming.RoundTripBelowModulus`.
- `Tree::write_file` / `from_file`. These are postcard serialisation, a foreign library.
- The random constructors. The shuffle in `Rotor::from_seed` is replaced by the wiring as a parameter, which must be a permutation. The `gen_range` draws in `Reflector::from_seed` become a parameter sequence of draws, with `d` standing for `i + d % (len - i)`; how the generator reduces to a range is not modelled. `Enigma::from_seed` only assembles rotors and a reflector, so the machine is given directly.
- `Enigma.Pairing`: the source keeps drawing until a draw is accepted, which ends only with probability 1. The model returns `None` when the supplied draws run out.
- `Rsa::new`, `mod_inverse` and `modpow`. These are a bignum library with random prime generation. The exponentiations are parameters `g` and `h`. Nothing claims that RSA decryption inverts encryption; the round-trip lemmas take that as a hypothesis below the modulus.
- lab05, the Windows WMI query and the installer. They are wrappers over foreign crates and the platform.
- The `u64` and string round-trips inside `rounds` (src/main.rs:284-307). They are modelled directly as XOR on bit sequences, a representation detail.
- Huffman counts are unbounded integers. The source's `i32` counts would overflow for inputs longer than 2^31 - 1 bytes.
- `HuffmanCodec.DecodeAll`: where `decomress` loops for ever (a single-leaf tree with bits left) or panics (the `expect` in `_decompress` when the bits run out mid-code), the model returns `None`. `Unpack` likewise returns `None` for inputs too short for the source's index arithmetic.
- Des.Encrypt: the last block is filled with `'.'` (46) and `decrypt` keeps those bytes, so there is no removable padding; `Des.DecryptEncrypt` states the round trip up to those dots.

## Findings

| source | as written | input that shows it | evidently intended | confidence | as-written member | corrected member |
|---|---|---|---|---|---|---|
| lab06/src/main.rs:89 | `from_data` returns a lone `Leaf` for data with one distinct byte. Its code is empty, `compress` emits only the trailer and `decomress` returns nothing | `"aaa"`: compressed to the bytes 0, 8, decompressed to `[]` | the round trip of the unit test for all non-empty data | not executed; high | HuffmanCodec.SingleByteLosesData | HuffmanCodec.RoundTripFixed |
| lab04v2/src/main.rs:112-114 | `size()` is `bits / 8` and is used as the input chunk size. For the moduli `Rsa::new` generates (a whole number of bytes) a chunk can read as a number ≥ n, which the exponentiation mod n cannot return | modulus 200 (8 bits, `size()` 1): the chunk `[255]` reads as 255 ≥ 200 | input chunks of (bits - 1) / 8 bytes, output blocks of (bits + 7) / 8 bytes | not executed; high | ChunkFraming.FullChunkReachesModulus | ChunkFraming.RoundTripFixed |
