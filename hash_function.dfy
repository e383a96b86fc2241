/** HashFunction of einsteinhash.cpp, step by step as the source computes
    it, proved to produce the digest that HashSpec.Hash describes. */
module EinsteinHash {
  import opened Bitset
  import opened BitOps
  import opened HashSpec

  /** The padding loop stops at the first multiple of 32 above the message. */
  lemma {:induction false} PaddingStops(L: nat, k: nat)
    requires L < k <= PaddedLength(L) && k % 32 == 0
    ensures k == PaddedLength(L)
  {
    SameResidue(k, PaddedLength(L), 32);
  }

  /** The bit string of bytes lo .. hi, extended by one more byte. */
  lemma {:induction false} BitStringsExtend(bytes: seq<Byte>, lo: nat, hi: nat)
    requires lo <= hi < |bytes|
    ensures BitStrings(bytes[lo..hi + 1]) == BitStrings(bytes[lo..hi]) + ToString(bytes[hi])
  {
    var s := bytes[lo..hi + 1];
    assert s[..|s| - 1] == bytes[lo..hi];
  }

  /** Mixing the schedule of block b into the state after blocks 0 .. b - 1
      gives the state after blocks 0 .. b. */
  lemma {:induction false} AbsorbNext(start: Planets, blocks: seq<Block>, b: nat, q: Planets)
    requires b < |blocks|
    requires q == Mix(Absorb(start, blocks[..b]), Schedule(blocks[b]))
    ensures q == Absorb(start, blocks[..b + 1])
  {
    PrefixStep(blocks, b);
    AbsorbLast(start, blocks[..b + 1]);
  }

  /** One more mixing step extends the run of steps by one word. */
  lemma {:induction false} MixNext(p: Planets, ms: seq<Word>, t: nat, q: Planets)
    requires t < |ms|
    requires q == MixStep(Mix(p, ms[..t]), ms[t])
    ensures q == Mix(p, ms[..t + 1])
  {
    PrefixStep(ms, t);
  }

  /** Generic sequence facts, kept apart so that the extensionality steps
      they need are proved away from the Mix and Absorb proof contexts. */
  lemma PrefixAll<T>(s: seq<T>)
    ensures s[..|s|] == s
  {
  }

  /** A one-longer prefix splits into the shorter prefix and element b. */
  lemma PrefixStep<T>(s: seq<T>, b: nat)
    requires b < |s|
    ensures s[..b + 1][..b] == s[..b] && s[..b + 1][b] == s[b]
  {
  }

  /** The input characters as bytes, then padded: the 0x80 marker, zero bytes
      up to a multiple of 32 bytes, and the length modulo 256 in the last byte. */
  method PrepareInput(input: seq<CChar>) returns (inputBits: seq<Byte>)
    ensures inputBits == Pad(InputBytes(input))
  {
    var asciiValues := seq(|input|, i requires 0 <= i < |input| => ConvertCharToASCII(input[i]));
    inputBits := [];
    var i := 0;
    while i < |asciiValues|
      invariant 0 <= i <= |asciiValues|
      invariant inputBits == InputBytes(input)[..i]
    {
      inputBits := inputBits + [FromInt(asciiValues[i], 8)];
      i := i + 1;
    }
    assert inputBits == InputBytes(input);

    var L := |input|;
    inputBits := inputBits + [Marker];
    while |inputBits| % 32 != 0
      invariant L + 1 <= |inputBits| <= PaddedLength(L)
      invariant inputBits == InputBytes(input) + [Marker] + seq(|inputBits| - L - 1, _ => ZeroByte)
      decreases PaddedLength(L) - |inputBits|
    {
      inputBits := inputBits + [ZeroByte];
    }
    PaddingStops(L, |inputBits|);
    inputBits := inputBits[|inputBits| - 1 := FromInt(L, 8)];
  }

  /** Cuts the padded bytes into 256-bit blocks through their bit strings. */
  method SplitIntoBlocks(inputBits: seq<Byte>) returns (splitBlocks: seq<Block>)
    ensures splitBlocks == SplitBlocks(inputBits)
  {
    splitBlocks := [];
    var i := 0;
    while i < |inputBits| / 32
      invariant 0 <= i <= |inputBits| / 32
      invariant splitBlocks == SplitBlocks(inputBits)[..i]
    {
      var block: seq<char> := [];
      var j := 0;
      while j < 32
        invariant 0 <= j <= 32
        invariant block == BitStrings(inputBits[32 * i .. 32 * i + j])
      {
        BitStringsExtend(inputBits, 32 * i, 32 * i + j);
        block := block + ToString(inputBits[j + i * 32]);
        j := j + 1;
      }
      splitBlocks := splitBlocks + [FromString(block)];
      i := i + 1;
    }
  }

  /** The ten schedule words of one block: its eight 32-bit words, then the
      two derived ones. */
  method ExpandBlock(singleBlock: Block) returns (equationBits: seq<Word>)
    ensures equationBits == Schedule(singleBlock)
  {
    equationBits := [];
    var i := 0;
    while i < 8
      invariant 0 <= i <= 8
      invariant equationBits == Schedule(singleBlock)[..i]
    {
      var tempBits: seq<char> := [];
      var j := 0;
      while j < 32
        invariant 0 <= j <= 32
        invariant tempBits == WordString(singleBlock, i)[..j]
      {
        var bit := if singleBlock[j + i * 32] then '1' else '0';
        tempBits := tempBits + [bit];
        j := j + 1;
      }
      assert tempBits == WordString(singleBlock, i);
      equationBits := equationBits + [FromString(tempBits)];
      i := i + 1;
    }

    ScheduleExtras(singleBlock);
    i := 0;
    while i < 2
      invariant 0 <= i <= 2
      invariant equationBits == Schedule(singleBlock)[..8 + i]
    {
      var extraBits := Xor(Xor(Rotr(equationBits[i], 10), Shr(Not(equationBits[i + 1]), 10)),
                           Shl(equationBits[i % 8], 8));
      equationBits := equationBits + [extraBits];
      i := i + 1;
    }
  }

  /** One pass of the mixing loop for the schedule word mainSequence, each
      addition done by the ripple-carry adder. */
  method MixWord(p: Planets, mainSequence: Word) returns (q: Planets)
    ensures q == MixStep(p, mainSequence)
  {
    var sum := BitsetAdd(Rotr(mainSequence, 8), p.neptune);
    var mercury := BitsetAdd(Xor(mainSequence, sum), p.mercury);
    sum := BitsetAdd(Rotr(mainSequence, 4), mercury);
    var venus := BitsetAdd(Xor(Rotl(mainSequence, 15), Not(sum)), p.venus);
    sum := BitsetAdd(Or(Rotr(mainSequence, 3), Not(Rotl(mainSequence, 16))), venus);
    var earth := BitsetAdd(sum, p.earth);
    var mars := BitsetAdd(Xor(Rotr(mainSequence, 4), And(Rotl(mainSequence, 12), earth)), p.mars);
    var jupiter := BitsetAdd(Or(Rotr(mainSequence, 10), And(Not(Rotr(mainSequence, 18)), mars)), p.jupiter);
    var saturn := BitsetAdd(Xor(And(mainSequence, Rotr(mainSequence, 16)), jupiter), p.saturn);
    sum := BitsetAdd(mainSequence, mainSequence);
    var uranus := BitsetAdd(Xor(Rotr(sum, 6), saturn), p.uranus);
    var neptune := BitsetAdd(Xor(Xor(Rotl(mainSequence, 3), Rotr(mainSequence, 8)), uranus), p.neptune);
    q := Planets(mercury, venus, earth, mars, jupiter, saturn, uranus, neptune);
  }

  /** The mixing loop over a block's schedule words, in order. */
  method MixBlock(p: Planets, equationBits: seq<Word>) returns (q: Planets)
    ensures q == Mix(p, equationBits)
  {
    q := p;
    var t := 0;
    while t < |equationBits|
      invariant 0 <= t <= |equationBits|
      invariant q == Mix(p, equationBits[..t])
    {
      q := MixWord(q, equationBits[t]);
      MixNext(p, equationBits, t, q);
      t := t + 1;
    }
    PrefixAll(equationBits);
  }

  /** The block loop: every block's schedule mixed into the accumulators,
      in order, without resetting them between blocks. */
  method AbsorbBlocks(start: Planets, splitBlocks: seq<Block>) returns (planets: Planets)
    ensures planets == Absorb(start, splitBlocks)
  {
    planets := start;
    var b := 0;
    while b < |splitBlocks|
      invariant 0 <= b <= |splitBlocks|
      invariant planets == Absorb(start, splitBlocks[..b])
    {
      var equationBits := ExpandBlock(splitBlocks[b]);
      planets := MixBlock(planets, equationBits);
      AbsorbNext(start, splitBlocks, b, planets);
      b := b + 1;
    }
    PrefixAll(splitBlocks);
  }

  /** The hash of a string: 64 lowercase hex characters, the eight final
      accumulators in order. */
  method HashFunction(input: seq<CChar>) returns (digest: seq<char>)
    ensures digest == Hash(input)
    ensures |digest| == 64 && IsHexString(digest)
  {
    var inputBits := PrepareInput(input);
    var splitBlocks := SplitIntoBlocks(inputBits);
    // The eight accumulators, seeded from k * c * c.
    var planets := InitialPlanets();
    planets := AbsorbBlocks(planets, splitBlocks);

    var hex := ConvertToHex(planets.mercury);
    digest := hex;
    hex := ConvertToHex(planets.venus);
    digest := digest + hex;
    hex := ConvertToHex(planets.earth);
    digest := digest + hex;
    hex := ConvertToHex(planets.mars);
    digest := digest + hex;
    hex := ConvertToHex(planets.jupiter);
    digest := digest + hex;
    hex := ConvertToHex(planets.saturn);
    digest := digest + hex;
    hex := ConvertToHex(planets.uranus);
    digest := digest + hex;
    hex := ConvertToHex(planets.neptune);
    digest := digest + hex;
    assert digest == Digest(planets);
    HashShape(input);
  }
}
