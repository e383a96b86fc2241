/** bitops.hpp and bitops.cpp: circular rotations over bitset<N>, the
    full-adder based 32-bit addition, fixed-width hex formatting and the
    char-to-int conversion. */
module BitOps {
  import opened Bitset

  // ---------------------------------------------------------------------
  // Rotations (bitops.hpp)
  // ---------------------------------------------------------------------

  /** rotl<N>: the count is reduced modulo N, then
      `bits << count | bits >> (N - count)`. */
  function Rotl(bits: Bits, count: nat): (r: Bits)
    requires |bits| > 0
    ensures |r| == |bits|
  {
    var c := count % |bits|;
    Or(Shl(bits, c), Shr(bits, |bits| - c))
  }

  /** rotr<N>: the count is reduced modulo N, then
      `bits >> count | bits << (N - count)`. */
  function Rotr(bits: Bits, count: nat): (r: Bits)
    requires |bits| > 0
    ensures |r| == |bits|
  {
    var c := count % |bits|;
    Or(Shr(bits, c), Shl(bits, |bits| - c))
  }

  /** rotl is a cyclic shift: the top count mod N bits come round to the bottom. */
  lemma {:induction false} RotlIsCyclicShift(bits: Bits, count: nat)
    requires |bits| > 0
    ensures Rotl(bits, count) == bits[|bits| - count % |bits|..] + bits[..|bits| - count % |bits|]
  {
    var c := count % |bits|;
    assert Or(Shl(bits, c), Shr(bits, |bits| - c)) == bits[|bits| - c..] + bits[..|bits| - c];
  }

  /** rotr is a cyclic shift: the bottom count mod N bits go round to the top. */
  lemma {:induction false} RotrIsCyclicShift(bits: Bits, count: nat)
    requires |bits| > 0
    ensures Rotr(bits, count) == bits[count % |bits|..] + bits[..count % |bits|]
  {
    var c := count % |bits|;
    assert Or(Shr(bits, c), Shl(bits, |bits| - c)) == bits[c..] + bits[..c];
  }

  /** Where position i lands after adding count, modulo n. */
  lemma {:induction false} WrapIndex(n: nat, count: nat, i: nat)
    requires 0 <= i < n
    ensures (i + count) % n == if i + count % n < n then i + count % n else i + count % n - n
  {
    var q := count / n;
    assert count == n * q + count % n;
    if i + count % n < n {
      ModUnique(i + count, n, q, i + count % n);
    } else {
      ModUnique(i + count, n, q + 1, i + count % n - n);
    }
  }

  /** rotl moves bit i to position (i + count) mod N. */
  lemma {:induction false} RotlMovesBits(bits: Bits, count: nat)
    requires |bits| > 0
    ensures forall i :: 0 <= i < |bits| ==> Rotl(bits, count)[(i + count) % |bits|] == bits[i]
  {
    RotlIsCyclicShift(bits, count);
    forall i | 0 <= i < |bits|
      ensures Rotl(bits, count)[(i + count) % |bits|] == bits[i]
    {
      WrapIndex(|bits|, count, i);
    }
  }

  /** rotr moves bit (j + count) mod N to position j, that is bit i to (i - count) mod N. */
  lemma {:induction false} RotrMovesBits(bits: Bits, count: nat)
    requires |bits| > 0
    ensures forall j :: 0 <= j < |bits| ==> Rotr(bits, count)[j] == bits[(j + count) % |bits|]
  {
    RotrIsCyclicShift(bits, count);
    forall j | 0 <= j < |bits|
      ensures Rotr(bits, count)[j] == bits[(j + count) % |bits|]
    {
      WrapIndex(|bits|, count, j);
    }
  }

  /** Rotating right undoes rotating left by the same count. */
  lemma {:induction false} RotrUndoesRotl(bits: Bits, count: nat)
    requires |bits| > 0
    ensures Rotr(Rotl(bits, count), count) == bits
  {
    var n, c := |bits|, count % |bits|;
    var x := Rotl(bits, count);
    RotlIsCyclicShift(bits, count);
    RotrIsCyclicShift(x, count);
    assert x[c..] == bits[..n - c];
    assert x[..c] == bits[n - c..];
  }

  /** Rotating left undoes rotating right by the same count. */
  lemma {:induction false} RotlUndoesRotr(bits: Bits, count: nat)
    requires |bits| > 0
    ensures Rotl(Rotr(bits, count), count) == bits
  {
    var n, c := |bits|, count % |bits|;
    var x := Rotr(bits, count);
    RotrIsCyclicShift(bits, count);
    RotlIsCyclicShift(x, count);
    assert x[n - c..] == bits[..c];
    assert x[..n - c] == bits[c..];
  }

  /** A left rotation is the right rotation by the complementary count. */
  lemma {:induction false} RotlIsRotr(bits: Bits, count: nat)
    requires |bits| > 0
    ensures Rotl(bits, count) == Rotr(bits, (|bits| - count % |bits|) % |bits|)
  {
    var n, c := |bits|, count % |bits|;
    var k := (n - c) % n;
    ComplementCount(n, c);
    RotlIsCyclicShift(bits, count);
    RotrIsCyclicShift(bits, k);
    var m := k % n;
    assert Rotr(bits, k) == bits[m..] + bits[..m];
    if c == 0 {
      WholeSwap(bits);
    } else {
      assert m == n - c;
    }
  }

  lemma {:induction false} ComplementCount(n: nat, c: nat)
    requires c < n
    ensures ((n - c) % n) % n == if c == 0 then 0 else n - c
  {
    if c == 0 {
      ModUnique(n, n, 1, 0);
      ModUnique(0, n, 0, 0);
    } else {
      ModUnique(n - c, n, 0, n - c);
    }
  }

  /** Moving no bits, or all of them, round the end leaves the bitset as it was. */
  lemma {:induction false} WholeSwap(bits: Bits)
    ensures bits[|bits|..] + bits[..|bits|] == bits
    ensures bits[0..] + bits[..0] == bits
  {
  }

  /** Only the count modulo N matters: adding whole turns changes nothing,
      so a rotation by 0 or by any multiple of N is the identity. */
  lemma {:induction false} RotateByWholeTurns(bits: Bits, count: nat, turns: nat)
    requires |bits| > 0
    ensures Rotl(bits, count + turns * |bits|) == Rotl(bits, count)
    ensures Rotr(bits, count + turns * |bits|) == Rotr(bits, count)
    ensures Rotl(bits, turns * |bits|) == bits && Rotr(bits, turns * |bits|) == bits
  {
    var n := |bits|;
    WholeTurns(n, count, turns);
    SameShift(bits, count + turns * n, count);
    NoShift(bits, turns * n);
  }

  /** Rotations by counts that agree modulo N are the same rotation. */
  lemma {:induction false} SameShift(bits: Bits, a: nat, b: nat)
    requires |bits| > 0 && a % |bits| == b % |bits|
    ensures Rotl(bits, a) == Rotl(bits, b) && Rotr(bits, a) == Rotr(bits, b)
  {
  }

  /** A rotation by a multiple of N moves nothing. */
  lemma {:induction false} NoShift(bits: Bits, a: nat)
    requires |bits| > 0 && a % |bits| == 0
    ensures Rotl(bits, a) == bits && Rotr(bits, a) == bits
  {
    RotlIsCyclicShift(bits, a);
    RotrIsCyclicShift(bits, a);
    assert bits[|bits|..] + bits[..|bits|] == bits;
    assert bits[0..] + bits[..0] == bits;
  }

  lemma {:induction false} WholeTurns(n: nat, count: nat, turns: nat)
    requires n > 0
    ensures (count + turns * n) % n == count % n
    ensures (turns * n) % n == 0
  {
    var q := count / n;
    assert count == n * q + count % n;
    assert count + turns * n == n * (q + turns) + count % n;
    ModUnique(count + turns * n, n, q + turns, count % n);
    ModUnique(turns * n, n, turns, 0);
  }

  /** Number of set bits. */
  function PopCount(bits: Bits): nat
  {
    if bits == [] then 0 else BitValue(bits[0]) + PopCount(bits[1..])
  }

  lemma {:induction false} PopCountAppend(a: Bits, b: Bits)
    ensures PopCount(a + b) == PopCount(a) + PopCount(b)
  {
    if a == [] {
      assert a + b == b;
    } else {
      assert (a + b)[1..] == a[1..] + b;
      PopCountAppend(a[1..], b);
    }
  }

  /** Rotation only permutes bit positions: the number of set bits is kept. */
  lemma {:induction false} RotatePreservesPopCount(bits: Bits, count: nat)
    requires |bits| > 0
    ensures PopCount(Rotl(bits, count)) == PopCount(bits)
    ensures PopCount(Rotr(bits, count)) == PopCount(bits)
  {
    var n, c := |bits|, count % |bits|;
    RotlIsCyclicShift(bits, count);
    RotrIsCyclicShift(bits, count);
    PopCountSwap(bits, n - c);
    PopCountSwap(bits, c);
  }

  lemma {:induction false} PopCountSwap(bits: Bits, k: nat)
    requires k <= |bits|
    ensures PopCount(bits[k..] + bits[..k]) == PopCount(bits)
  {
    PopCountAppend(bits[k..], bits[..k]);
    PopCountAppend(bits[..k], bits[k..]);
    assert bits[..k] + bits[k..] == bits;
  }

  // ---------------------------------------------------------------------
  // Addition (bitops.cpp)
  // ---------------------------------------------------------------------

  /** fullAdder: returns the sum bit and replaces the carry (a reference
      parameter in the source) by the carry out. */
  method FullAdder(b1: bool, b2: bool, carry: bool) returns (sum: bool, carryOut: bool)
    ensures BitValue(sum) + 2 * BitValue(carryOut) == BitValue(b1) + BitValue(b2) + BitValue(carry)
    ensures carryOut <==> BitValue(b1) + BitValue(b2) + BitValue(carry) >= 2
  {
    sum := (b1 != b2) != carry;
    carryOut := (b1 && b2) || (b1 && carry) || (b2 && carry);
  }

  /** Addition modulo 2^N, the reference the carry chain is proved against. */
  function Add(x: Bits, y: Bits): (r: Bits)
    requires |x| == |y|
    ensures |r| == |x|
  {
    FromInt(ToNat(x) + ToNat(y), |x|)
  }

  /** The value of a sum is the sum of the values modulo 2^N. */
  lemma {:induction false} AddValue(x: Bits, y: Bits)
    requires |x| == |y|
    ensures ToNat(Add(x, y)) == (ToNat(x) + ToNat(y)) % Pow2(|x|)
  {
    ToNatFromInt(ToNat(x) + ToNat(y), |x|);
  }

  /** bitsetAdd: a ripple of full adders from bit 0 to bit 31; the carry out
      of bit 31 is dropped. */
  method BitsetAdd(x: Bits, y: Bits) returns (ans: Bits)
    requires |x| == 32 && |y| == 32
    ensures |ans| == 32
    ensures ans == Add(x, y)
  {
    var carry := false;
    ans := Zeros(32);
    for i := 0 to 32
      invariant |ans| == 32
      invariant ToNat(ans[..i]) + (if carry then Pow2(i) else 0)
             == ToNat(x[..i]) + ToNat(y[..i])
    {
      ghost var carryIn := carry;
      var sum;
      sum, carry := FullAdder(x[i], y[i], carry);
      RippleStep(ans, x, y, i, carryIn, sum, carry);
      ans := ans[i := sum];
    }
    RippleDone(ans, x, y, carry);
  }

  /** One full adder extends the sum of the low i bits to the low i + 1 bits. */
  lemma {:induction false} RippleStep(ans: Bits, x: Bits, y: Bits, i: nat, carryIn: bool, sum: bool, carryOut: bool)
    requires |ans| == |x| == |y| && i < |x|
    requires ToNat(ans[..i]) + (if carryIn then Pow2(i) else 0) == ToNat(x[..i]) + ToNat(y[..i])
    requires BitValue(sum) + 2 * BitValue(carryOut) == BitValue(x[i]) + BitValue(y[i]) + BitValue(carryIn)
    ensures ToNat(ans[i := sum][..i + 1]) + (if carryOut then Pow2(i + 1) else 0)
         == ToNat(x[..i + 1]) + ToNat(y[..i + 1])
  {
    assert ans[i := sum][..i + 1] == ans[..i] + [sum];
    assert x[..i + 1] == x[..i] + [x[i]];
    assert y[..i + 1] == y[..i] + [y[i]];
    ToNatAppend(ans[..i], sum);
    ToNatAppend(x[..i], x[i]);
    ToNatAppend(y[..i], y[i]);
  }

  /** Once every position is done, the carry out is dropped and the result is Add. */
  lemma {:induction false} RippleDone(ans: Bits, x: Bits, y: Bits, carry: bool)
    requires |ans| == |x| == |y|
    requires ToNat(ans[..|x|]) + (if carry then Pow2(|x|) else 0) == ToNat(x[..|x|]) + ToNat(y[..|x|])
    ensures ToNat(ans) == (ToNat(x) + ToNat(y)) % Pow2(|x|)
    ensures ans == Add(x, y)
  {
    assert ans[..|x|] == ans && x[..|x|] == x && y[..|x|] == y;
    CarryDropped(ToNat(x) + ToNat(y), ToNat(ans), carry, Pow2(|x|));
    AddUnique(x, y, ans);
  }

  /** Add is the only N-bit result whose value is the sum modulo 2^N. */
  lemma {:induction false} AddUnique(x: Bits, y: Bits, r: Bits)
    requires |x| == |y| == |r| && ToNat(r) == (ToNat(x) + ToNat(y)) % Pow2(|x|)
    ensures r == Add(x, y)
  {
    AddValue(x, y);
    ToNatInjective(r, Add(x, y));
  }

  /** The carry out of the top bit is worth 2^N: dropping it leaves the sum mod 2^N. */
  lemma {:induction false} CarryDropped(total: int, low: int, carry: bool, p: int)
    requires 0 <= low < p && low + (if carry then p else 0) == total
    ensures low == total % p
  {
    ModUnique(total, p, if carry then 1 else 0, low);
  }

  /** Addition modulo 2^N does not depend on the order of its operands. */
  lemma {:induction false} AddCommutes(x: Bits, y: Bits)
    requires |x| == |y|
    ensures Add(x, y) == Add(y, x)
  {
  }

  /** Zero is the identity of addition modulo 2^N. */
  lemma {:induction false} AddZero(x: Bits)
    ensures Add(x, Zeros(|x|)) == x && Add(Zeros(|x|), x) == x
  {
    ZerosValue(|x|);
    FromIntToNat(x);
  }

  lemma {:induction false} ZerosValue(n: nat)
    ensures ToNat(Zeros(n)) == 0
  {
    if n > 0 {
      assert Zeros(n)[1..] == Zeros(n - 1);
      ZerosValue(n - 1);
    }
  }

  // ---------------------------------------------------------------------
  // Hex formatting and char conversion (bitops.cpp)
  // ---------------------------------------------------------------------

  predicate IsHexChar(c: char)
  {
    '0' <= c <= '9' || 'a' <= c <= 'f'
  }

  predicate IsHexString(s: seq<char>)
  {
    forall i :: 0 <= i < |s| ==> IsHexChar(s[i])
  }

  /** The lowercase digit that std::hex writes for d. */
  function HexChar(d: nat): (c: char)
    requires d < 16
    ensures IsHexChar(c)
  {
    if d < 10 then ('0' as int + d) as char else ('a' as int + d - 10) as char
  }

  /** The value of one lowercase hex digit. */
  function HexCharValue(c: char): (d: nat)
    requires IsHexChar(c)
    ensures d < 16 && HexChar(d) == c
  {
    if c <= '9' then c as int - '0' as int else c as int - 'a' as int + 10
  }

  /** What `oss << hex << n` writes: the digits of n in base 16, most
      significant first, without leading zeros ("0" for zero). */
  function HexDigits(n: nat): (s: seq<char>)
    ensures 1 <= |s| && IsHexString(s)
  {
    if n < 16 then [HexChar(n)] else HexDigits(n / 16) + [HexChar(n % 16)]
  }

  /** Reading a hex string in base 16, most significant digit first. */
  function HexValue(s: seq<char>): nat
    requires IsHexString(s)
  {
    if s == [] then 0 else 16 * HexValue(s[..|s| - 1]) + HexCharValue(s[|s| - 1])
  }

  function ZeroChars(n: nat): seq<char>
  {
    seq(n, _ => '0')
  }

  /** Inserting one more '0' in front of k of them and some digits. */
  lemma {:induction false} PrependZero(k: nat, digits: seq<char>)
    ensures ['0'] + (ZeroChars(k) + digits) == ZeroChars(k + 1) + digits
  {
    assert ['0'] + ZeroChars(k) == ZeroChars(k + 1);
  }

  /** The 8-character string ConvertToHex returns: the hex digits of the
      word's value, with '0's in front up to 8 characters. */
  function ToHex(bits: Bits): (s: seq<char>)
    requires |bits| == 32
    ensures |s| == 8 && IsHexString(s) && HexValue(s) == ToNat(bits)
  {
    var d := HexDigits(ToNat(bits));
    HexDigitsFit(ToNat(bits), 8);
    HexDigitsValue(ToNat(bits));
    LeadingZeros(8 - |d|, d);
    ZeroChars(8 - |d|) + d
  }

  lemma {:induction false} Pow2Of32()
    ensures Pow2(32) == 0x1_0000_0000 && Pow2(4) == 16
  {
    Pow2Add(16, 16);
    Pow2Add(8, 8);
    Pow2Add(4, 4);
  }

  /** A value below 16^k has at most k hex digits. */
  lemma {:induction false} HexDigitsFit(n: nat, k: nat)
    requires 1 <= k && n < Pow2(4 * k)
    ensures |HexDigits(n)| <= k
    decreases k
  {
    if n >= 16 {
      Pow2Add(4, 4 * (k - 1));
      Pow2Of32();
      if k == 1 {
        assert false;
      }
      HexDigitsFit(n / 16, k - 1);
    }
  }

  /** Reading the digits back gives the value. */
  lemma {:induction false} HexDigitsValue(n: nat)
    ensures HexValue(HexDigits(n)) == n
    decreases n
  {
    if n >= 16 {
      var d := HexDigits(n);
      assert d[..|d| - 1] == HexDigits(n / 16);
      HexDigitsValue(n / 16);
    }
  }

  /** Leading '0' characters do not change the value read. */
  lemma {:induction false} LeadingZeros(k: nat, s: seq<char>)
    requires IsHexString(s)
    ensures IsHexString(ZeroChars(k) + s)
    ensures HexValue(ZeroChars(k) + s) == HexValue(s)
    decreases |s|
  {
    var z := ZeroChars(k) + s;
    assert IsHexString(z) by {
      forall i | 0 <= i < |z| ensures IsHexChar(z[i]) {
        if i >= k {
          assert z[i] == s[i - k];
        }
      }
    }
    if s == [] {
      AllZeros(k);
      assert z == ZeroChars(k);
    } else {
      assert z[..|z| - 1] == ZeroChars(k) + s[..|s| - 1];
      LeadingZeros(k, s[..|s| - 1]);
    }
  }

  lemma {:induction false} AllZeros(k: nat)
    ensures IsHexString(ZeroChars(k)) && HexValue(ZeroChars(k)) == 0
  {
    if k > 0 {
      assert ZeroChars(k)[..k - 1] == ZeroChars(k - 1);
      AllZeros(k - 1);
    }
  }

  /** ConvertToHex: writes the value in hex, then inserts '0' at the front
      while the string is shorter than 8 characters. */
  method ConvertToHex(bitsToConvert: Bits) returns (result: seq<char>)
    requires |bitsToConvert| == 32
    ensures |result| == 8 && IsHexString(result)
    ensures HexValue(result) == ToNat(bitsToConvert)
    ensures result == ToHex(bitsToConvert)
  {
    var digits := HexDigits(ToNat(bitsToConvert));
    WordDigits(bitsToConvert);
    result := digits;
    ghost var zeros := 0;
    while |result| < 8
      invariant |result| == zeros + |digits| <= 8
      invariant result == ZeroChars(zeros) + digits
    {
      PrependZero(zeros, digits);
      result := ['0'] + result;
      zeros := zeros + 1;
    }
  }

  /** A word has at most 8 hex digits, and ToHex is those digits padded. */
  lemma {:induction false} WordDigits(bits: Bits)
    requires |bits| == 32
    ensures |HexDigits(ToNat(bits))| <= 8
    ensures ToHex(bits) == ZeroChars(8 - |HexDigits(ToNat(bits))|) + HexDigits(ToNat(bits))
  {
    HexDigitsFit(ToNat(bits), 8);
  }

  /** Two words with the same 8-character hex form are the same word. */
  lemma {:induction false} ToHexInjective(a: Bits, b: Bits)
    requires |a| == 32 && |b| == 32 && ToHex(a) == ToHex(b)
    ensures a == b
  {
    ToNatInjective(a, b);
  }

  /** A C++ char, as the int that int(c) yields: -128..127 where char is
      signed, 0..255 where it is unsigned. */
  type CChar = c: int | -128 <= c < 256

  /** ConvertCharToASCII */
  function ConvertCharToASCII(c: CChar): int
  {
    c as int
  }
}
