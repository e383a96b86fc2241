/** The parts of std::bitset<N> that the hash relies on.
    A bitset<N> is a sequence of N booleans; element k is bit k, so element 0
    is the least significant bit (the bit that operator[](0) reads). */
module Bitset {

  type Bits = seq<bool>

  /** 2^n */
  function Pow2(n: nat): (r: nat)
    ensures r >= 1
  {
    if n == 0 then 1 else 2 * Pow2(n - 1)
  }

  /** The bitset with every bit clear. */
  function Zeros(n: nat): Bits
  {
    seq(n, _ => false)
  }

  function BitValue(b: bool): nat
  {
    if b then 1 else 0
  }

  /** to_ulong(): the unsigned value the bits denote. */
  function ToNat(b: Bits): (r: nat)
    ensures r < Pow2(|b|)
  {
    if |b| == 0 then 0 else BitValue(b[0]) + 2 * ToNat(b[1..])
  }

  /** bitset<n>(v): the n low-order bits of v in two's complement, which is
      what the constructor from an integer keeps (a negative int is first
      converted to unsigned long long, which does not change its low bits). */
  function FromInt(v: int, n: nat): (r: Bits)
    ensures |r| == n
    decreases n
  {
    if n == 0 then [] else [v % 2 == 1] + FromInt(v / 2, n - 1)
  }

  /** Euclidean division is unique: the helper behind every round trip below. */
  lemma {:induction false} ModUnique(v: int, m: int, q: int, t: int)
    requires m > 0 && v == m * q + t && 0 <= t < m
    ensures v % m == t && v / m == q
  {
    var q', t' := v / m, v % m;
    assert m * q' + t' == v;
    if q' > q {
      MulAtLeast(m, q' - q);
    } else if q' < q {
      MulAtLeast(m, q - q');
    }
  }

  lemma {:induction false} MulAtLeast(m: int, k: int)
    requires m > 0 && k >= 1
    ensures m * k >= m
    decreases k
  {
    if k > 1 {
      MulAtLeast(m, k - 1);
      assert m * k == m * (k - 1) + m;
    }
  }

  lemma {:induction false} Pow2Add(a: nat, b: nat)
    ensures Pow2(a + b) == Pow2(a) * Pow2(b)
  {
    if a > 0 {
      Pow2Add(a - 1, b);
    }
  }

  /** Splitting off the lowest bit: v mod 2p is its low bit plus twice (v div 2) mod p. */
  lemma {:induction false} ModDouble(v: int, p: int)
    requires p > 0
    ensures v % (2 * p) == v % 2 + 2 * ((v / 2) % p)
  {
    var q, s := (v / 2) / p, (v / 2) % p;
    assert v / 2 == p * q + s;
    assert v == 2 * (v / 2) + v % 2;
    assert v == (2 * p) * q + (2 * s + v % 2);
    ModUnique(v, 2 * p, q, 2 * s + v % 2);
  }

  /** The low n bits of v read back as v mod 2^n. */
  lemma {:induction false} ToNatFromInt(v: int, n: nat)
    ensures ToNat(FromInt(v, n)) == v % Pow2(n)
    decreases n
  {
    if n > 0 {
      var rest := FromInt(v / 2, n - 1);
      assert FromInt(v, n)[1..] == rest;
      assert BitValue(FromInt(v, n)[0]) == v % 2;
      ToNatFromInt(v / 2, n - 1);
      ModDouble(v, Pow2(n - 1));
    }
  }

  /** Reading bits as a number and converting back gives the same bits. */
  lemma {:induction false} FromIntToNat(b: Bits)
    ensures FromInt(ToNat(b), |b|) == b
  {
    if |b| > 0 {
      var t := ToNat(b[1..]);
      ModUnique(ToNat(b), 2, t, BitValue(b[0]));
      FromIntToNat(b[1..]);
    }
  }

  /** Two bitsets of one width with the same value are equal. */
  lemma {:induction false} ToNatInjective(a: Bits, b: Bits)
    requires |a| == |b| && ToNat(a) == ToNat(b)
    ensures a == b
  {
    FromIntToNat(a);
    FromIntToNat(b);
  }

  /** Only v mod 2^n matters to bitset<n>(v). */
  lemma {:induction false} FromIntMod(v: int, n: nat)
    ensures FromInt(v, n) == FromInt(v % Pow2(n), n)
  {
    ToNatFromInt(v, n);
    FromIntToNat(FromInt(v, n));
  }

  /** Appending a bit above the top adds its weight. */
  lemma {:induction false} ToNatAppend(b: Bits, x: bool)
    ensures ToNat(b + [x]) == ToNat(b) + (if x then Pow2(|b|) else 0)
  {
    if |b| > 0 {
      assert (b + [x])[1..] == b[1..] + [x];
      ToNatAppend(b[1..], x);
    }
  }

  predicate IsBitString(s: seq<char>)
  {
    forall i :: 0 <= i < |s| ==> s[i] == '0' || s[i] == '1'
  }

  /** to_string(): the first character is the highest bit. */
  function ToString(b: Bits): (s: seq<char>)
    ensures |s| == |b| && IsBitString(s)
  {
    seq(|b|, t requires 0 <= t < |b| => if b[|b| - 1 - t] then '1' else '0')
  }

  /** bitset<N>(s) for a string of exactly N characters '0'/'1': the first
      character becomes the highest bit. */
  function FromString(s: seq<char>): (b: Bits)
    requires IsBitString(s)
    ensures |b| == |s|
  {
    seq(|s|, p requires 0 <= p < |s| => s[|s| - 1 - p] == '1')
  }

  /** Reading back the string to_string writes gives the same bitset. */
  lemma {:induction false} StringRoundTrip(b: Bits)
    ensures FromString(ToString(b)) == b
  {
    var r := FromString(ToString(b));
    assert forall p :: 0 <= p < |b| ==> r[p] == b[p];
  }

  /** Writing out the bitset a '0'/'1' string builds gives that string back. */
  lemma {:induction false} BitStringRoundTrip(s: seq<char>)
    requires IsBitString(s)
    ensures ToString(FromString(s)) == s
  {
    var r := ToString(FromString(s));
    assert forall t :: 0 <= t < |s| ==> r[t] == s[t];
  }

  /** operator~ */
  function Not(a: Bits): (r: Bits)
    ensures |r| == |a|
  {
    seq(|a|, i requires 0 <= i < |a| => !a[i])
  }

  /** operator& */
  function And(a: Bits, b: Bits): (r: Bits)
    requires |a| == |b|
    ensures |r| == |a|
  {
    seq(|a|, i requires 0 <= i < |a| => a[i] && b[i])
  }

  /** operator| */
  function Or(a: Bits, b: Bits): (r: Bits)
    requires |a| == |b|
    ensures |r| == |a|
  {
    seq(|a|, i requires 0 <= i < |a| => a[i] || b[i])
  }

  /** operator^ */
  function Xor(a: Bits, b: Bits): (r: Bits)
    requires |a| == |b|
    ensures |r| == |a|
  {
    seq(|a|, i requires 0 <= i < |a| => a[i] != b[i])
  }

  /** operator<<: bits move up by k, zeros come in; a shift by N or more clears everything. */
  function Shl(a: Bits, k: nat): (r: Bits)
    ensures |r| == |a|
  {
    seq(|a|, i requires 0 <= i < |a| => if i >= k then a[i - k] else false)
  }

  /** operator>>: bits move down by k, zeros come in; a shift by N or more clears everything. */
  function Shr(a: Bits, k: nat): (r: Bits)
    ensures |r| == |a|
  {
    seq(|a|, i requires 0 <= i < |a| => if i + k < |a| then a[i + k] else false)
  }
}
