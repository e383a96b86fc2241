# Einstein hash — a Dafny model

This project models the 256-bit "Einstein" hash of the Kacerns/Blockchain
repository (`HashFunction` in einsteinhash.cpp) together with the bit
primitives it is built from (bitops.hpp, bitops.cpp), and proves what the
code promises about them.

Modules:

- `Bitset` (bitset.dfy) — the parts of `std::bitset<N>` the code uses. A
  bitset is a `seq<bool>` whose element k is bit k. The module covers the
  constructor from an integer (the low N bits), the constructor from a
  `'0'/'1'` string (the first character is the highest bit), `to_string`,
  `to_ulong`, `~ & | ^ << >>`, the round trips between the integer
  constructor and `to_ulong`, and those between `to_string` and the string
  constructor.
- `BitOps` (bitops.dfy) — the contents of bitops.hpp and bitops.cpp:
  - `rotl`/`rotr` as functions over any width N;
  - `fullAdder` and the ripple-carry `bitsetAdd` as methods, the latter
    proved equal to addition modulo 2^32 (`Add`);
  - `ConvertToHex` as a method with the source's prepend-`'0'` loop, proved
    equal to the 8-character `ToHex`;
  - `ConvertCharToASCII`.
- `HashSpec` (hash_spec.dfy) — the hash as functions:
  - the seeds `(k·c²) mod 2^32`;
  - the padding;
  - the cut into 256-bit blocks and 32-bit words through bit strings;
  - the ten-word schedule;
  - the eight-accumulator mixing step (`MixStep`) and its inverse
    (`UnmixStep`);
  - the accumulators carried across blocks (`Absorb`);
  - the 64-character hex digest (`Hash`).
- `EinsteinHash` (hash_function.dfy) — `HashFunction` written
  imperatively, with the source's loops, and proved to return `Hash(input)`.
  Each loop nest of the C++ function sits in its own method, in the
  source's order:
  - `PrepareInput`: character conversion and padding;
  - `SplitIntoBlocks`: the block split;
  - `ExpandBlock`: word extraction and schedule extension;
  - `MixWord` and `MixBlock`: the mixing loop;
  - `AbsorbBlocks`: the loop over blocks.

## Model

| member | source | states |
|---|---|---|
| Bitset.StringRoundTrip | einsteinhash.cpp:58-60 | the string constructor reads back exactly the bitset that to_string wrote |
| Bitset.BitStringRoundTrip | einsteinhash.cpp:58-60 | to_string of a bitset built from a '0'/'1' string gives that string back |
| BitOps.RotlIsCyclicShift | bitops.hpp:10-15 | rotl is the cyclic shift by count mod N: the top count mod N bits come round to the bottom |
| BitOps.RotrIsCyclicShift | bitops.hpp:16-21 | rotr is the cyclic shift by count mod N: the bottom count mod N bits go round to the top |
| BitOps.RotlMovesBits | bitops.hpp:14 | rotl moves bit i to position (i + count) mod N |
| BitOps.RotrMovesBits | bitops.hpp:20 | rotr puts bit (j + count) mod N at position j, so bit i goes to (i − count) mod N |
| BitOps.RotrUndoesRotl | bitops.hpp:10-21 | rotr(rotl(b, c), c) == b for every count |
| BitOps.RotlUndoesRotr | bitops.hpp:10-21 | rotl(rotr(b, c), c) == b for every count |
| BitOps.RotlIsRotr | bitops.hpp:10-21 | rotl(b, c) == rotr(b, (N − c mod N) mod N) |
| BitOps.SameShift | bitops.hpp:13-19 | counts that agree modulo N give the same rotations |
| BitOps.NoShift | bitops.hpp:13-20 | a count that is a multiple of N gives the identity, because a bitset shifted by N is all zeros |
| BitOps.RotateByWholeTurns | bitops.hpp:13-20 | adding whole turns to the count changes nothing; rotating by 0 or by any multiple of N is the identity |
| BitOps.RotatePreservesPopCount | bitops.hpp:14-20 | both rotations keep the number of set bits |
| BitOps.FullAdder | bitops.cpp:16-21 | sum + 2·carry_out == b1 + b2 + carry_in, and carry_out is set exactly when two or more inputs are set |
| BitOps.RippleStep | bitops.cpp:26-28 | the loop invariant: after bit i, the low i + 1 bits of ans plus carry·2^(i+1) equal the low i + 1 bits of x plus those of y |
| BitOps.BitsetAdd | bitops.cpp:22-30 | the ripple of 32 full adders yields a 32-bit result equal to Add(x, y), the final carry dropped |
| BitOps.AddValue | bitops.cpp:22-30 | the value of Add(x, y) is (x + y) mod 2^N |
| BitOps.AddUnique | bitops.cpp:22-30 | Add(x, y) is the only N-bit result whose value is (x + y) mod 2^N |
| BitOps.AddCommutes | bitops.cpp:22-30 | addition does not depend on the order of its operands |
| BitOps.AddZero | bitops.cpp:22-30 | zero is a left and right identity of addition |
| BitOps.ConvertToHex | bitops.cpp:6-15 | the result is exactly 8 lowercase hex characters, reads back in base 16 as the word's value, and equals ToHex |
| BitOps.WordDigits | bitops.cpp:8-9 | a 32-bit value has at most 8 hex digits, so the padding loop only ever adds '0's in front |
| BitOps.HexDigitsValue | bitops.cpp:8-9 | the digits the hex stream writes read back as the value |
| BitOps.LeadingZeros | bitops.cpp:11-13 | prepending '0' characters keeps a hex string hex and does not change its value |
| BitOps.ToHexInjective | bitops.cpp:6-15 | two words with the same 8-character hex form are equal |
| HashSpec.InputByteValue | einsteinhash.cpp:35-41 | each character contributes int(c) mod 256 |
| HashSpec.SignednessAgrees | einsteinhash.cpp:35-41 | a byte above 127 gives the same bits whether char is signed (u − 256) or unsigned (u) |
| HashSpec.SeedValue | einsteinhash.cpp:14-21 | k·c·c fits in unsigned long long for each of the eight factors, so each seed is (k·c²) mod 2^32 |
| HashSpec.PaddedLength | einsteinhash.cpp:44-47 | the padded length is a multiple of 32 with L < P ≤ L + 32, so it is the smallest multiple of 32 above L |
| HashSpec.PadLayout | einsteinhash.cpp:44-48 | after padding: the first L bytes are the input, the last byte is L mod 256, byte L is 0x80 unless it is the last byte, and every other byte is 0 |
| HashSpec.PadInjective | einsteinhash.cpp:44-48 | different inputs never pad to the same bytes |
| HashSpec.BlockCount | einsteinhash.cpp:44-55 | there are L div 32 + 1 blocks, so at least one, even for the empty input |
| HashSpec.BitStringsAt | einsteinhash.cpp:57-59 | the block string holds bit 7 − t mod 8 of byte t div 8 at character t |
| HashSpec.BlockWordBits | einsteinhash.cpp:54-73 | bit b of word i of block k is bit 7 − b mod 8 of padded byte 32k + 28 − 4i + b div 8 |
| HashSpec.Schedule | einsteinhash.cpp:64-78 | a block yields exactly ten schedule words, the first eight being its words in order |
| HashSpec.ScheduleExtras | einsteinhash.cpp:74-78 | w[8 + i] = rotr(w[i], 10) ^ ((~w[i + 1]) >> 10) ^ (w[i] << 8) for i = 0, 1 |
| HashSpec.SubUndoesAdd | bitops.cpp:22-30 | subtraction modulo 2^N undoes addition, which is what makes each accumulator update reversible |
| HashSpec.UnmixUndoesMix | einsteinhash.cpp:81-90 | each mixing step is reversible: the previous accumulators are recovered from the new ones and the schedule word |
| HashSpec.MixInjective | einsteinhash.cpp:81-90 | hence distinct accumulator states stay distinct through any run of mixing steps |
| HashSpec.AbsorbAppend | einsteinhash.cpp:64-91 | the accumulators are never reset: absorbing two runs of blocks is absorbing the second from the state the first left |
| HashSpec.DigestLayout | einsteinhash.cpp:92-93 | the digest is 64 lowercase hex characters, and characters 8k..8k+7 are the hex of the k-th accumulator, mercury first and neptune last |
| HashSpec.DigestInjective | einsteinhash.cpp:92-93 | different final accumulator states give different digests |
| HashSpec.HashShape | einsteinhash.cpp:92-93 | every input hashes to exactly 64 lowercase hex characters |
| EinsteinHash.PrepareInput | einsteinhash.cpp:32-48 | the conversion loop and the padding loop produce Pad(InputBytes(input)) |
| EinsteinHash.SplitIntoBlocks | einsteinhash.cpp:54-61 | the nested loops produce the blocks SplitBlocks describes |
| EinsteinHash.ExpandBlock | einsteinhash.cpp:65-78 | the word loops and the extension loop produce the block's ten-word Schedule |
| EinsteinHash.MixWord | einsteinhash.cpp:82-89 | the eight updates, done with the ripple-carry adder, give MixStep |
| EinsteinHash.MixBlock | einsteinhash.cpp:81-90 | the mixing loop applies MixStep for each schedule word, in order |
| EinsteinHash.AbsorbBlocks | einsteinhash.cpp:64-91 | the block loop absorbs every block in order, starting from the given accumulators |
| EinsteinHash.HashFunction | einsteinhash.cpp:6-94 | the method returns Hash(input), which is 64 lowercase hex characters |

## Left out

- interface.cpp is not part of this model. It holds the transaction id built from `std::to_string(double)`, console printing and a demo `main`.
- The Merkle root, proof-of-work mining, the UTXO ledger and the chain logic are not part of this model. einsteinhash.hpp and utils.hpp are not part of this model either.
- The `planets` vector of `HashFunction` (einsteinhash.cpp:13, 22-29) is filled but never read, so the model has no counterpart for it. `input_bits.clear()` (einsteinhash.cpp:62) has none either.
- BitOps.BitsetAdd: the result is stated as addition modulo 2^32 on values. Its bit-for-bit equality with machine `bv32` addition is not stated.
- BitOps.Rotl: the count is a C++ `unsigned`; the model takes any natural number. The two agree on every count below 2^32, which covers every call in the hash.
- BitOps.ConvertCharToASCII: a `char` is modelled as its `int` value, in −128..255. This covers both signednesses; SignednessAgrees shows that both readings give the same byte.
- BitOps.ConvertToHex: the `ostringstream`/`std::hex` mechanics are modelled by `HexDigits`, the base-16 digits without leading zeros, most significant first.
- No collision or preimage resistance is stated. The code does not promise any.
- No fixed digest values are pinned, because the source has no test vectors.
