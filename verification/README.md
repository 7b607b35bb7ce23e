# Verified models of the benchmark programs and drivers

This directory holds Dafny models of the parts of the repository whose results are hard to see from the code,
with proofs for every input, every run or every reachable state:

- **Classic McEliece (mceliece348864).** The constant-time sorting network; the control bits of a Benes network,
  from the theory of cycles to the code that packs everything into 32-bit words and sorts it; the bitsliced
  network and its inverse; the field of 4096 elements and the ring above it, in scalar and bitsliced code; the
  Goppa polynomial; Berlekamp-Massey; the public key, from the ordering of the field to the stored rows; the
  encryption, and how it fits the parity-check matrix from which the key was made.
- **Hashes and ciphers.** SHAKE in one call and in pieces; SHA-256; Rijndael for nine key and block sizes; the
  CRC as the remainder of a division of polynomials.
- **CoreMark.** The list benchmark with its bottom-up merge sort, whose comparator rewrites what it compares, and
  the value it returns.
- **Memory and sorting routines.** musl's `memcpy` and `memset`, and the quicksort on bytes.
- **Drivers.** The SPI and UART drivers under every interleaving of submissions and interrupts.

Code that works step by step on arrays, lists or contexts is modelled by methods and classes with the same
loops, and each is proved against a function or predicate on values; what the code is for is then proved about
that function. A file holds one module. `Words`, `CInt`, `Numerals`, `Bytes` and `BitMatrix` fix how machine words
are read: as numbers with the wrap-around written out, as sequences of bits, or as `bv32`.

`dafny verify dfyconfig.toml` checks the project.

Three results differ from what one may expect of the code:

- The unsigned sorting macros fail for operands that are too far apart, from half the word range on
  (`SortNetwork.UnsignedMinMaxExact` says for which exactly). The keys sorted in `pk_gen.c` and `encrypt.c` stay
  below half the range.
- The one-shot and the incremental Keccak code differ in one case, a domain byte with its top bit set on the last
  byte of the rate (`Sponge.PaddingAdded`). The domain bytes 0x06 and 0x1f do not have it set.
- A UART transfer above UDMA_MAX_SIZE - 4 bytes never ends, since its remainder is never cleared
  (`UartDriver.ChannelDrains`). The trace messages speak of re-enqueueing the pending data; the model follows the
  code.

The comment above `controlbitsfrompermutation` allows w from 1 on. The pass that checks the result advances by
n >> 4 bytes a layer, which is 0 for w below 4, so the outermost call is proved for w from 4 to 14; the
recursion is proved from 1 on.

## Model
| member | source | states |
|---|---|---|
| SortNetwork.Sort | lib/crypto_bench/mceliece348864/int32_sort.h:23-58 | For every number of elements, the range ends as a sorted permutation of what it held and nothing outside it changes; the same network serves all three word types. |
| SortNetwork.PhaseOrders | lib/crypto_bench/mceliece348864/uint64_sort.h:26-41 | One turn of the `p` loop takes elements that are in order at stride 2p to order at stride p, for any number of elements up to twice `top`, not only powers of two. |
| SortNetwork.MinMaxExact | lib/crypto_bench/mceliece348864/int32_sort.h:12-21 | The branch-free macros, with wrapped difference, sign correction and mask, leave minimum and maximum: for all pairs of int32, and for unsigned words below half of their range. |
| SortNetwork.UnsignedMinMaxExact | lib/crypto_bench/mceliece348864/uint16_sort.h:8-16 | The unsigned macro leaves minimum and maximum if and only if the operands are less than half the word range apart, or exactly half with the larger one first. |
| SortNetwork.UnsignedMinMaxReverses | lib/crypto_bench/mceliece348864/uint64_sort.h:8-16 | The input for which the unsigned macro fails, at every width: 0 and half the range come out reversed. |
| Cycles.CyclesApart | lib/crypto_bench/mceliece348864/controlbits.c:35-99 | For every permutation of an even number of points, no cycle of pi o flip o pi^-1 o flip contains both elements of a pair {2i, 2i+1}; this is what makes one bit per pair well defined. |
| Cycles.HalfOrbitSuffices | lib/crypto_bench/mceliece348864/controlbits.c:52-99 | The minimum over the first n/2 elements of an orbit is the minimum of the whole cycle, so the doubling may stop after w - 1 rounds. |
| CycleMinimaCode.CycleMinima | lib/crypto_bench/mceliece348864/controlbits.c:52-99 | The sort-based pointer doubling, in the scratch array with 10-bit or 16-bit payloads, leaves in B the least elements of the cycles as an n/2-step orbit minimum. |
| ControlBitsCode.ComputePibar | lib/crypto_bench/mceliece348864/controlbits.c:35-50 | Three sorts of packed words compute pibar, its square and the packed pair the doubling starts from, for every even permutation, and leave the rest of the scratch array alone. |
| BenesNetwork.MiddleParity | lib/crypto_bench/mceliece348864/controlbits.c:101-143 | Once the first and last control bits are applied, the permutation that remains keeps parity, so it splits into two of half the size. |
| BenesNetwork.NetworkRealizes | lib/crypto_bench/mceliece348864/controlbits.c:22-147 | By induction over the recursion: the control bits of any permutation of 2^w points drive the 2w - 1 layers of conditional exchanges from the identity to that permutation. |
| ControlBitsRecursion.CbRecursion | lib/crypto_bench/mceliece348864/controlbits.c:22-147 | The recursive code, with strided output positions and a shared scratch array, exclusive-ors exactly the control bits of the permutation into its output bits. |
| ControlBitsCheck.LayerPass | lib/crypto_bench/mceliece348864/controlbits.c:154-174 | The checking pass that reads bits out of bytes applies one layer of conditional exchanges. |
| ControlBitsCheck.ControlBitsFromPermutation | lib/crypto_bench/mceliece348864/controlbits.c:180-219 | For every permutation the verification loop stops after its first pass, and the bits in the output drive the network from the identity to the permutation; bits after the last one stay as they were. |
| BitMatrix.Transpose | lib/crypto_bench/mceliece348864/transpose.h:12-43 | The six masked swap stages transpose a 64x64 bit matrix, also in place. |
| BitslicedBenes.Benes | lib/crypto_bench/mceliece348864/benes.c:41-107 | The code on 64 words, with its two transpositions, four loops over strides and backward walk through the bits, computes the 23 layers on 4096 bits, in the reverse order of layers when `rev` is set. |
| BitslicedBenes.BenesInverts | lib/crypto_bench/mceliece348864/benes.c:38-107 | For all 4096 bits and all control bits, running the network in both directions gives the bits back. |
| BitslicedBenes.BenesPermutes | lib/crypto_bench/mceliece348864/benes.c:38-107 | With the control bits computed for pi, `benes` moves bit pi(x) to place x, and the reverse run moves it back: the two files agree on one layout of the bits. |
| KeyPermutation.OrderField | lib/crypto_bench/mceliece348864/pk_gen.c:120-136 | The packed 64-bit sort fails exactly when a random word occurs twice; otherwise `pi` is the permutation that sorts the random words. |
| KeyPermutation.NeighboursExact | lib/crypto_bench/mceliece348864/pk_gen.c:129-131 | Comparing neighbours of the sorted list decides whether there is any duplicate. |
| ParityMatrix.FillColumns | lib/crypto_bench/mceliece348864/pk_gen.c:138-149 | The loops write, block by block, the powers 0 to t - 1 of the consts times the inverses into the rows, and change no other block. |
| Elimination.Systematize | lib/crypto_bench/mceliece348864/pk_gen.c:154-212 | Constant-time elimination and back substitution fail exactly for singular square matrices; otherwise the logged operations are the inverse of the matrix, from the left and from the right. |
| BinaryAlgebra.RightInverse | lib/crypto_bench/mceliece348864/pk_gen.c:154-212 | A left inverse that is regular is a right inverse: why logging row operations yields a solution of M T = H. |
| PublicRows.StoreRows | lib/crypto_bench/mceliece348864/pk_gen.c:229-257 | The bytes of row r of the public key are row r of the log times the columns on the right, whole words and the short last word included. |
| PublicKey.PublicRowsOf | lib/crypto_bench/mceliece348864/pk_gen.c:138-257 | The stages joined: failure if and only if the left part of the parity-check matrix is singular; otherwise the stored rows T satisfy left * T = right. |
| PublicKey.PkGen | lib/crypto_bench/mceliece348864/pk_gen.c:116-261 | The result is 0 exactly when the random words are distinct and the left part, for the ordering in `pi`, is regular, and -1 otherwise; with 0 the key holds the systematic form. |
| BatchInversion.InvertAll | lib/crypto_bench/mceliece348864/pk_gen.c:101-114 | With one inversion for all: in every lane without a zero each element is replaced by its inverse, and in a lane with a zero all become zero. |
| GoppaPolynomial.GenPoly | lib/crypto_bench/mceliece348864/sk_gen.c:25-84 | It fails exactly when 1, f, ..., f^(t-1) are linearly dependent; otherwise the result is the linear relation that f^t satisfies. |
| GoppaPolynomial.RPowSum | lib/crypto_bench/mceliece348864/sk_gen.c:39-43 | f^(i+j) = f^i f^j: the powers the matrix is filled with do not depend on how they are multiplied up. |
| ErrorVector.GenError | lib/crypto_bench/mceliece348864/encrypt.c:71-138 | The draw that is used has a place p before which exactly t numbers are below n, and these differ; exactly the positions below n among the first p numbers are set, and they are t. No earlier draw has such a place. |
| ErrorVector.WeightIs | lib/crypto_bench/mceliece348864/encrypt.c:112-138 | Distinct positions set as many bits as there are positions: the weight that the decoder counts on. |
| Syndrome.ParityOf | lib/crypto_bench/mceliece348864/encrypt.c:165-171 | The six foldings leave the parity of the 64 bits. |
| Syndrome.SyndromeOf | lib/crypto_bench/mceliece348864/encrypt.c:142-176 | Word by word, with four bytes at the end of each row, the syndrome is the head of the error vector plus the rows of the key times the rest; the bits after it stay. |
| Syndrome.SyndromeExactly | lib/crypto_bench/mceliece348864/encrypt.c:142-176 | For a key made from a regular matrix M with H beside it, the syndrome of e is the only vector s with M s = [M H] e: encryption with the public key fits the parity-check matrix of the key generation. |
| Syndrome.Encrypt | lib/crypto_bench/mceliece348864/encrypt.c:178-210 | The error vector has exactly the first t positions below n of the first accepted draw set, and the ciphertext is its syndrome in that sense. |
| Field.PowFieldSize | lib/crypto_bench/mceliece348864/gf.c:87-115 | a^4096 = a in the ring modulo x^12 + x^3 + 1, by the additivity of squaring: the reason a^4094 can be an inverse. |
| Field.IdempotentIs | lib/crypto_bench/mceliece348864/gf.c:87-115 | Only 0 and 1 are idempotent, so a^4095 is one for every a that is not zero. |
| Field.NoZeroDivisors | lib/crypto_bench/mceliece348864/gf.c:28-60 | A product is zero if and only if a factor is. |
| ScalarField.GfMul | lib/crypto_bench/mceliece348864/gf.c:28-60 | The shift-and-mask product, reduced with two masks, is the product of the field for all pairs. |
| ScalarField.GfSq | lib/crypto_bench/mceliece348864/gf.c:64-84 | The bit interleaving and its reduction is the square for every element. |
| ScalarField.GfInv | lib/crypto_bench/mceliece348864/gf.c:87-115 | The addition chain computes the power 4094, and input times result is one for every input but zero. |
| ScalarField.GfFrac | lib/crypto_bench/mceliece348864/gf.c:119-122 | den times the result is num whenever den is not zero. |
| VecField.VecMul | lib/crypto_bench/mceliece348864/vec.c:5-26 | In each of the 64 lanes the bitsliced product is the product of the field, also when the output is an input. |
| VecField.VecSq | lib/crypto_bench/mceliece348864/vec.c:28-53 | In each lane the network of exclusive ors is the square, also in place. |
| VecField.VecInv | lib/crypto_bench/mceliece348864/vec.c:55-83 | In each lane the chain is the power 4094: the inverse, and zero for zero. |
| ExtensionRing.YKReduces | lib/crypto_bench/mceliece348864/gf.c:126-150 | Modulo y^t + y^3 + y + x, every power from t on is the combination of three lower ones that the reduction loop substitutes. |
| ExtensionRing.GFMul | lib/crypto_bench/mceliece348864/gf.c:126-150 | The schoolbook product with its downward reduction loop is the product of the ring, defined independently by multiplying up powers of y. |
| ExtensionRingLaws.ProductCommutes | lib/crypto_bench/mceliece348864/gf.c:126-150 | a b = b a. |
| ExtensionRingLaws.ProductAssociates | lib/crypto_bench/mceliece348864/gf.c:126-150 | (a b) c = a (b c). |
| ExtensionRingLaws.ProductDistributes | lib/crypto_bench/mceliece348864/gf.c:126-150 | a (b + c) = a b + a c. |
| ExtensionRingLaws.OneNeutral | lib/crypto_bench/mceliece348864/sk_gen.c:34-37 | The row the matrix starts with is neutral on both sides. |
| Recurrences.LengthBound | lib/crypto_bench/mceliece348864/bm.c:229-250 | Massey's bound: if a recurrence of length l fails at index n, any one that also generates element n has length at least n + 1 - l. |
| Recurrences.StateStep | lib/crypto_bench/mceliece348864/bm.c:216-252 | The masked update without inversion keeps a shortest recurrence for one more element, in both branches. |
| BerlekampMassey.Bm | lib/crypto_bench/mceliece348864/bm.c:201-259 | The result is a shortest linear recurrence of the syndrome when its length is at most 64; a greater length means that no recurrence of length 64 or less exists. |
| Sponge.AbsorbFull | lib/crypto_bench/mceliece348864/fips202.c:440-463 | Bytes that fill the pending block end in a permutation, whatever was pending before. |
| Sponge.PaddingShape | lib/crypto_bench/mceliece348864/fips202.c:367-378 | The padding fills the block, starts with the domain bits, ends with a set bit and has zeros between. |
| Sponge.PaddingAdded | lib/crypto_bench/mceliece348864/fips202.c:477-483 | The two separate exclusive ors of the padding are the padding block, unless the domain byte has its top bit set and falls on the last byte of the rate: if and only if. |
| Sponge.FinishedIsSponge | lib/crypto_bench/mceliece348864/fips202.c:477-483 | For domain bytes with a clear top bit the finalized state, permuted, is that of the padded message of FIPS 202, section 4. |
| Sponge.AheadSplits | lib/crypto_bench/mceliece348864/fips202.c:498-523 | n bytes and then k bytes of output are the first n + k bytes. |
| KeccakSponge.Context.Absorb | lib/crypto_bench/mceliece348864/fips202.c:440-463 | The context that has taken in a message has then taken in the message and the new bytes. |
| KeccakSponge.Context.Finalize | lib/crypto_bench/mceliece348864/fips202.c:477-483 | The context that took in m is ready to give the output for m. |
| KeccakSponge.Context.Squeeze | lib/crypto_bench/mceliece348864/fips202.c:498-523 | The bytes written are the next ones of the output stream, however many were given before, and nothing else in the buffer changes. |
| Shake.KeccakAbsorb | lib/crypto_bench/mceliece348864/fips202.c:349-382 | The one-shot absorption is that of the sponge for every domain byte, since it combines the padding with `|=`. |
| Shake.Shake256Parameters | lib/crypto_bench/mceliece348864/fips202.c:600-602 | The domain byte is 0x1f, and the rate is 200 bytes less twice 256 bits. |
| Shake.OneShot | lib/crypto_bench/mceliece348864/fips202.c:660-678 | For every rate, permutation, message and output length the output is that of the sponge, last partial block included. |
| Shake.Shake256 | lib/crypto_bench/mceliece348864/fips202.c:395-405 | SHAKE256 of the message, squeezed by whole blocks and a rest. |
| Shake.InPieces | lib/crypto_bench/mceliece348864/fips202.c:417-523 | Absorbing any pieces and squeezing any pieces gives the bytes of the one-shot hash of the concatenated message. |
| Sha256Compress.OneRound | lib/openasip/sha256/nettle-sha256.c:203-207 | A round rewrites only two of the eight variables, and with the roles rotated that is the round of FIPS 180-4, section 6.2.2. |
| Sha256Compress.Expand | lib/openasip/sha256/nettle-sha256.c:198-199 | The window of sixteen words, overwritten in place, always holds the last sixteen words of the message schedule. |
| Sha256Compress.Compress | lib/openasip/sha256/nettle-sha256.c:209-298 | The unrolled code computes the compression of FIPS 180-4 for every state and block, with the constants that `ConstantIs` determines. |
| Sha256Constants.ConstantIs | lib/openasip/sha256/nettle-sha256.c:304-321 | Constant t is the fractional part, to 32 bits, of the cube root of the prime with t primes before it. |
| Sha256Constants.InitialIs | lib/openasip/sha256/nettle-sha256.c:331-334 | Word t of the initial hash value is the fractional part of the square root of that prime. |
| Sha256Spec.BigEndian | lib/openasip/sha256/nettle-sha256.c:218-221 | A word of the block is read with its first byte counting most. |
| Sha256Spec.DigestBytes | lib/openasip/sha256/nettle-sha256.c:110-116 | The four bytes that are written of a word of the digest read back as the word. |
| BlockHash.FoldFull | lib/openasip/sha256/nettle-sha256.c:37-71 | Bytes that fill the buffered block are folded in with it: the step of an update. |
| BlockHash.PaddingShape | lib/openasip/sha256/nettle-sha256.c:73-96 | The padding is a byte 0x80, fewer than 64 zeros up to the end of a block, and eight bytes that are the length in bits, the first counting most. |
| BlockHash.PaddingTwo | lib/openasip/sha256/nettle-sha256.c:73-96 | When fewer than nine bytes are free the padding takes a second block, and the two are the padding of FIPS 180-4, section 5.1.1. |
| Sha256.BitCount | lib/openasip/sha256/nettle-sha256.c:360-361 | Block count and index put together are the length in bits modulo 2^64. |
| Sha256.Context.Update | lib/openasip/sha256/nettle-sha256.c:345-349 | A context that has taken in m has then taken in m and the data, for any lengths. |
| Sha256.Context.Digest | lib/openasip/sha256/nettle-sha256.c:351-377 | The first bytes of the digest of the whole message are written, and the context is that of the empty message again. |
| Sha256.HashPieces | lib/openasip/sha256/nettle-sha256.c:327-377 | Init, any updates and digest give the digest of the concatenated pieces. |
| RijndaelTables.TablesInverse | lib/openasip/aes/aes_func.c:62-129 | The two tables of 256 entries are inverse to each other. |
| RijndaelField.SubByteAffine | lib/openasip/aes/aes_func.c:62-95 | For every byte x there is y with x y = 1 modulo x^8 + x^4 + x^3 + x + 1 (y = 0 for x = 0), and bit i of the entry is the sum of the bits i, i + 4, i + 5, i + 6 and i + 7 of y and of bit i of 0x63. |
| RijndaelField.MixedByte | lib/openasip/aes/aes_func.c:367-509 | A byte of a mixed column is 2 a + 3 b + c + d in that field, and of an unmixed one 14 a + 11 b + 13 c + 9 d. |
| RijndaelField.ShiftedRow | lib/openasip/aes/aes_func.c:133-244 | Rows 1, 2 and 3 are rotated by 1, 2 and 3 columns, and by 1, 3 and 4 when the block has eight. |
| RijndaelField.RconDoubles | lib/openasip/aes/aes_key.c:64-73 | The constants of the schedule start with 1, and each is twice the one before in the field. |
| Rijndael.ColumnInverse | lib/openasip/aes/aes_func.c:434-509 | Mixing with 9, 11, 13, 14 undoes mixing with 1, 1, 2, 3, for all four bytes of a column. |
| RijndaelRows.ByteSubShiftRow | lib/openasip/aes/aes_func.c:133-244 | The in-place assignments with one temporary, written out for each block size, are substitution and row shift with the offsets of that size. |
| RijndaelRows.InversShiftRowByteSub | lib/openasip/aes/aes_func.c:253-364 | The in-place assignments of the decryption are the inverse shift and substitution. |
| Rijndael.SubShiftInverse | lib/openasip/aes/aes_func.c:253-364 | Inverse shift and substitution give back every state, for the three block sizes. |
| RijndaelCode.MixColumnAddRoundKey | lib/openasip/aes/aes_func.c:367-431 | Doubling by comparison with 0x100 and exclusive or with 283 is multiplication in the field, so the loop mixes the columns and adds the round key. |
| RijndaelCode.AddRoundKeyInversMixColumn | lib/openasip/aes/aes_func.c:434-509 | The three doublings per byte and their sums add the round key and undo the mixing. |
| RijndaelCode.DecryptInverts | lib/openasip/aes/aes_dec.c:119-130 | For any round keys and any positive number of rounds, the decryption undoes the encryption step by step. |
| RijndaelKeys.KeySchedule | lib/openasip/aes/aes_key.c:77-163 | For the nine types the table holds the expanded key, with the extra substitution for 256-bit keys; any other type returns -1 and leaves the table. |
| RijndaelCode.KindsAgree | lib/openasip/aes/aes_dec.c:74-118 | A type is 1000 times the key bits plus the block bits, the switches of the three functions agree, the rounds are six more than the larger number of columns, and the table is large enough. |
| RijndaelCipher.Encrypt | lib/openasip/aes/aes_enc.c:74-126 | The state becomes the cipher of the block under the expanded key, made of the substitution, shifts, mixing and constants that `RijndaelField` determines. |
| RijndaelCipher.Decrypt | lib/openasip/aes/aes_dec.c:71-130 | The state becomes the inverse cipher of the block, with the key expanded again. |
| RijndaelCipher.RoundTrip | lib/openasip/aes/aes_dec.c:71-130 | For every type, key and block, decrypting the cipher gives the block. |
| RijndaelCipher.EncryptDecrypt | lib/openasip/aes/aes.c:118-119 | Encrypting and decrypting in place leaves every block as it was, for every key and type. |
| Crc.TableStep | lib/openasip/crc/crc.c:211-231 | One look-up step is eight bit steps, for every remainder and byte. |
| Crc.CrcSlow | lib/openasip/crc/crc.c:94-133 | Bit by bit, the result is the value of the recurrence on the message. |
| Crc.CrcInit | lib/openasip/crc/crc.c:155-193 | Every entry of the table is the remainder of its index. |
| Crc.CrcFast | lib/openasip/crc/crc.c:211-231 | With the table in place, the same value as `crcSlow` for every message. |
| Crc.CrcExactly | lib/openasip/crc/crc.c:94-133 | A word is what is left of the message, followed by sixteen zeros and with sixteen ones added to its first bits, after some multiple of x^16 + x^12 + x^5 + 1 is subtracted, if and only if it is the value that `crcSlow` and `crcFast` return. |
| CrcDivision.OneRemainder | lib/openasip/crc/crc.c:94-133 | The division by a generator of degree 16 has only one remainder. |
| CrcDivision.ProductShifts | lib/openasip/crc/crc.c:94-133 | A multiple of the generator is the sum of four shifts, by 16, a, b and 0. |
| ListCrc.Crcu8 | lib/coremark/core_util.c:163-187 | The loop over the bits of a byte, lowest first, feeds them to the checksum. |
| ListCrc.CheckedExactly | lib/coremark/core_util.c:163-194 | A word is what the division of the bits, with the old checksum added in front, by x^16 + x^15 + x^2 + 1 leaves if and only if it is the new checksum. |
| ListItems.CalcFunc | lib/coremark/core_list_join.c:69-111 | The first comparison of an item caches its key and updates the results; later ones return the cached key and change nothing. |
| ListItems.Compare | lib/coremark/core_list_join.c:120-143 | Both comparators settle the keys of the two items and return the order of the settled keys; a settled item stays, and any other item gets the key that its own data and the checksum and calls reached by then determine. |
| ListItems.SettledKey | lib/coremark/core_list_join.c:75-110 | The key of a settled item has seven bits of its data, or, for the two benchmarks, of what the benchmark returned for the step taken from bits 3 to 6. |
| StableMerge.TakeLeft | lib/coremark/core_list_join.c:551-565 | Taking the left head on a tie keeps the merge stable. |
| StableMerge.PassStep | lib/coremark/core_list_join.c:515-581 | After every merge of two runs, of which the second may be short or missing, the state of the pass holds again. |
| ListSort.MergeRuns | lib/coremark/core_list_join.c:529-577 | Relinking two neighbouring runs gives one sorted run of the same nodes, linked behind what was merged before and with the rest of the chain intact, though the comparator rewrites the data meanwhile. |
| ListSort.MergeSort | lib/coremark/core_list_join.c:499-591 | The nodes of the list, each once, relinked in stable order of their final keys, all settled for two nodes or more; the data of every node is what comparisons make of its old data, while the checksum and the calls go from their old to their new values. |
| ListSort.KeysComputed | lib/coremark/core_list_join.c:80-110 | After the sort a cached item has its old data; any other has the low bits of its data, or of a value that its benchmark returned. |
| ListBench.Find | lib/coremark/core_list_join.c:434-449 | The first node that matches, or null if and only if none does: by index when the one looked for is not negative, otherwise by the low byte of the data. |
| ListBench.Reverse | lib/coremark/core_list_join.c:464-477 | The same nodes linked in reverse. |
| ListBench.FindOnce | lib/coremark/core_list_join.c:175-198 | One pass finds, reverses and moves a node as the pure order says, adds the picked bit, and counts a hit or a miss. |
| ListBench.HitIs | lib/coremark/core_list_join.c:176-186 | A pass hits exactly if some node fits, whatever the order of the list. |
| ListBench.Finds | lib/coremark/core_list_join.c:173-203 | The value after the finds is four times the number of passes in which some node fits, less the number of the others, plus the picked bits, modulo 2^16. |
| ListBench.WithoutOne | lib/coremark/core_list_join.c:207-221 | Removing by exchange of the info pointers, finding, and undoing leave the link and the info of every node as they were; the checksum takes the data of the head once for every node from the found one on, or from the second one. |
| ListBench.RepeatedExactly | lib/coremark/core_list_join.c:213-230 | Checksumming a word n times leaves exactly what the division of n copies of its bits by x^16 + x^15 + x^2 + 1 leaves. |
| ListBench.OneOrder | lib/coremark/core_list_join.c:222-223 | A set of nodes has only one strictly increasing order, so sorting by index restores the list. |
| ListBench.BenchList | lib/coremark/core_list_join.c:158-235 | A list in the order of its indices is given back with the same head and order; data whose low bytes copy the high bytes comes back too. The value returned is that of the finds, fed through the checksums of the head before and after the sort by index, with the order and the data at the removal determined by the finds and the sort by keys. |
| QuickSort.MemSwap | lib/rvv_bench/common/rvv_bench_utils.h:36-45 | Two separate byte ranges are exchanged and nothing else changes. |
| QuickSort.Partition | lib/rvv_bench/common/rvv_bench_utils.h:50-59 | For every comparator that is a total preorder, the scans stop inside the array and leave a split around the pivot, which is followed when it is itself exchanged. |
| QuickSort.QSort | lib/rvv_bench/common/rvv_bench_utils.h:46-62 | The array of bytes, read as elements of the given size, ends sorted and permuted as whole elements; elements outside the sub-array do not change. |
| Memory.MergedBytes | lib/rvv_bench/bench/memcpy.c:68-117 | A word shifted out of one load and into the next holds the bytes that are adjacent in memory, for the three misalignments. |
| MemCopy.MemCpy | lib/rvv_bench/bench/memcpy.c:23-142 | For every length and alignment of two ranges that do not overlap exactly the n bytes are copied, with every word access aligned. |
| MemSet.MemSet | lib/rvv_bench/bench/memset.c:22-108 | For every length, value and alignment exactly the n bytes are set, though the stores overlap. |
| TaskFifo.Fifo.Enqueue | cmake/targets/gvsoc/drivers/uart.c:402-422 | The task is linked behind the last one, and the result tells whether the queue was empty. |
| TaskFifo.Fifo.Pop | cmake/targets/gvsoc/drivers/spi.c:152-166 | The head is unlinked and the others stay in order. |
| SpiDriver.Driver.Submit | cmake/targets/gvsoc/drivers/spi.c:540-614 | A submission goes to the hardware when it is idle and to the end of the queue otherwise; it is refused exactly when it is longer than the limit, and then nothing changes. |
| SpiDriver.Driver.EotHandler | cmake/targets/gvsoc/drivers/spi.c:261-306 | The job that was going on has ended, a thread that waits for it is released, and the next job is with the hardware. |
| SpiDriver.Run | cmake/targets/gvsoc/drivers/spi.c:337-402 | Over every interleaving of submissions and interrupts, the driver is in the state that the accepted and the ended jobs describe. |
| SpiDriver.AcceptedShort | cmake/targets/gvsoc/drivers/spi.c:560-565 | The accepted jobs are the submitted ones of at most 65536 bits, in their order. |
| SpiDriver.InOrder | cmake/targets/gvsoc/drivers/spi.c:236-306 | In every reachable state the jobs reach the hardware once and in order of submission, nothing waits while the hardware is idle, and a thread is released exactly for an ended job. |
| UartDriver.Channel.Copy | cmake/targets/gvsoc/drivers/uart.c:303-338 | A request with a reachable buffer joins the queue and starts at once if it is alone; any other is refused with -11. |
| UartDriver.Channel.Handler | cmake/targets/gvsoc/drivers/uart.c:371-399 | The interrupt ends the job at the head if and only if its size fits one hardware transfer; a larger one stays at the head, and its next piece, in 32-bit arithmetic, is handed to the hardware. |
| UartDriver.Run | cmake/targets/gvsoc/drivers/uart.c:303-439 | Over every interleaving of submissions and interrupts of a channel, its state and everything handed to the hardware are those that the accepted and the ended jobs and the interrupts survived by the current one describe. |
| UartDriver.AcceptedInReach | cmake/targets/gvsoc/drivers/uart.c:311-316 | The accepted jobs are the submitted ones with a buffer from 0x1C000000 to 0x1C0FFFFF, in their order. |
| UartDriver.PiecesFollow | cmake/targets/gvsoc/drivers/uart.c:341-399 | As long as bytes are left, the pieces of a large transfer follow each other in the buffer. |
| UartDriver.ChannelDrains | cmake/targets/gvsoc/drivers/uart.c:341-399 | The pending jobs can all end if and only if none of them exceeds 131068 bytes, UDMA_MAX_SIZE - 4; the branch for larger ones never lets go of the channel. |
| TaskRuns.Stuck | cmake/targets/gvsoc/drivers/uart.c:371-399 | A pending job that cannot end keeps itself and all behind it from ending, whatever events follow. |

## Left out
- SortNetwork.Sort: for unsigned words it is stated for values below half of the range, where the macro compares correctly; `UnsignedMinMaxExact` and `UnsignedMinMaxReverses` say what happens beyond.
- ControlBitsCode.ComputePibar: left shifts that overflow an int32, undefined in C, are modelled as wrapping around.
- BerlekampMassey.Bm: starts from the 128 coefficients; taking them apart from the bitsliced syndrome (`get_coefs`) is not modelled.
- PublicKey.PkGen: the bitslicing of the sorted list is a parameter, a function of the ordering, and the evaluation by the additive FFT before line 101 is not modelled.
- ErrorVector.GenError: the random draws are an argument; without an accepted draw among them the loop of the source goes on.
- Shake.Shake256: the permutation Keccak-f is a parameter, so only the code around it is covered; the counter in slot 25 of the incremental state is a field of its own.
- Sha256.Context.Update: the message is a sequence and its length unbounded; the 64-bit bit count is modelled with its wrap-around.
- ListItems.CalcFunc: the results of the matrix and state kernels are an arbitrary function of the step, the checksum so far and the number of kernel calls before.
- ListSort.MergeSort: `insize` does not overflow; the empty list, for which the source would dereference a null pointer, is excluded.
- ListBench.BenchList: the construction of the list (`core_list_init`) is not modelled; a list of three nodes or more is assumed, since the source follows `list->next->next`.
- QuickSort.QSort: sizes are unbounded, and a recursive call on a sub-array is a call on a range of the same array.
- MemCopy.MemCpy: the little-endian variant for compilers with GNU extensions; the byte loop after it is a special case.
- MemSet.MemSet: the variant for GNU compilers; the barrier macros have no effect on the values.
- RijndaelCipher.Encrypt: printing, and the comparison with the expected block that updates `main_result`, are left out; for an unknown type the source goes on with the counts and the table of an earlier call, which is excluded.
- SpiDriver.Run: every task is submitted once; sending and receiving differ only in the direction; a callback task is dropped at its end, as in the code; full duplex, micro code and the command words are not modelled, and an aborted call leaves the driver as it was.
- UartDriver.Run: every task is submitted once; the two channels are separate objects, and an interrupt arrives only while a transfer is going on; aborting through `ioctl` is not modelled.
- Syndrome.Encrypt: the portable `syndrome`; the one in vector instructions (`syndrome_rvv`) is not modelled. The buffers hold bytes, and words are read from them at any place.
- The additive FFT and its transpose, and with them the decryption of McEliece; its scaling is the batched inversion of `BatchInversion.InvertAll`, its weight check would only add an easy member.
- The state machine and the matrix loops of CoreMark, the RVV assembly benchmarks, the I2C driver, the cluster queue and the start-up code.
- Time, cycle counters and the constant-time property itself: the models say what is computed.
