/** Byte strings read as big-endian numbers, and the padding helpers of Common/Common/Data+Padding.swift. */
module Bytes {

  type Byte = b: nat | b < 256
  type Data = seq<Byte>

  function Pow(base: nat, exponent: nat): (p: nat)
    requires base > 0
    ensures p > 0
  {
    if exponent == 0 then 1 else base * Pow(base, exponent - 1)
  }

  lemma {:induction false} PowAdd(base: nat, a: nat, b: nat)
    requires base > 0
    ensures Pow(base, a + b) == Pow(base, a) * Pow(base, b)
  {
    if a > 0 {
      PowAdd(base, a - 1, b);
      MulAssociates(base, Pow(base, a - 1), Pow(base, b));
    }
  }

  lemma {:induction false} PowMonotone(base: nat, a: nat, b: nat)
    requires base > 0 && a <= b
    ensures Pow(base, a) <= Pow(base, b)
  {
    PowAdd(base, a, b - a);
    MulAtLeast(Pow(base, a), Pow(base, b - a));
  }

  lemma {:induction false} PowSquare(base: nat, k: nat)
    requires base > 0
    ensures Pow(base * base, k) == Pow(base, 2 * k)
  {
    if k > 0 {
      PowSquare(base, k - 1);
      assert Pow(base, 2 * k) == base * (base * Pow(base, 2 * k - 2));
      MulAssociates(base, base, Pow(base, 2 * k - 2));
    }
  }

  lemma MulAssociates(a: int, b: int, c: int)
    ensures (a * b) * c == a * (b * c)
  {}

  lemma MulDistributes(a: int, b: int, c: int)
    ensures (a + b) * c == a * c + b * c
  {}

  lemma MulAtLeast(a: nat, b: nat)
    requires b > 0
    ensures a <= a * b
  {
    MulDistributes(b - 1, 1, a);
    assert (b - 1) * a >= 0;
  }

  lemma MulMonotone(a: nat, b: nat, c: nat)
    requires a <= b
    ensures a * c <= b * c
  {
    MulDistributes(a, b - a, c);
  }

  /** A quotient and remainder determine `/` and `%`. */
  lemma DivModUnique(n: int, d: int, q: int, r: int)
    requires d > 0 && n == q * d + r && 0 <= r < d
    ensures n / d == q && n % d == r
  {
    var q', r' := n / d, n % d;
    assert n == q' * d + r';
    assert (q - q') * d == r' - r;
    if q > q' {
      MulMonotone(1, q - q', d);
    } else if q < q' {
      assert (q' - q) * d == r - r';
      MulMonotone(1, q' - q, d);
    }
  }

  lemma RemainderOfSmall(n: nat, d: nat, r: nat)
    requires n < d && r == n % d
    ensures r == n
  {}

  // ----- Big-endian value -----

  /** `BigUInt(data)`. */
  function ToNat(data: Data): (n: nat) {
    if data == [] then 0 else ToNat(data[..|data| - 1]) * 256 + data[|data| - 1]
  }

  lemma {:induction false} ToNatConcat(a: Data, b: Data)
    ensures ToNat(a + b) == ToNat(a) * Pow(256, |b|) + ToNat(b)
  {
    if b == [] {
      assert a + b == a;
    } else {
      var c := b[..|b| - 1];
      ToNatConcat(a, c);
      assert (a + b)[..|a + b| - 1] == a + c;
      MulAssociates(ToNat(a), Pow(256, |c|), 256);
      MulDistributes(ToNat(a) * Pow(256, |c|), ToNat(c), 256);
      assert Pow(256, |b|) == 256 * Pow(256, |c|);
    }
  }

  lemma {:induction false} ToNatBound(data: Data)
    ensures ToNat(data) < Pow(256, |data|)
  {
    if data != [] {
      ToNatBound(data[..|data| - 1]);
    }
  }

  /** Byte strings of one length are determined by their value. */
  lemma {:induction false} ToNatInjective(a: Data, b: Data)
    requires |a| == |b| && ToNat(a) == ToNat(b)
    ensures a == b
  {
    if a != [] {
      ToNatInjective(a[..|a| - 1], b[..|b| - 1]);
      assert a == a[..|a| - 1] + [a[|a| - 1]];
      assert b == b[..|b| - 1] + [b[|b| - 1]];
    }
  }

  function Zeroes(count: nat): (data: Data)
    ensures |data| == count && ToNat(data) == 0
  {
    if count == 0 then [] else Zeroes(count - 1) + [0]
  }

  // ----- Padding -----

  function LeftPadded(data: Data, count: nat): (r: Data)
    ensures |r| == if |data| < count then count else |data|
    ensures ToNat(r) == ToNat(data)
  {
    if |data| >= count then data
    else
      var zeroes := Zeroes(count - |data|);
      ToNatConcat(zeroes, data);
      zeroes + data
  }

  function RightPadded(data: Data, count: nat): (r: Data)
    ensures |r| == if |data| < count then count else |data|
    ensures data <= r
  {
    if |data| >= count then data else data + Zeroes(count - |data|)
  }

  function EndTruncated(data: Data, count: nat): (r: Data)
    ensures |r| <= count && r <= data
    ensures |data| <= count ==> r == data
  {
    if |data| > count then data[..count] else data
  }

  /** `data.prefix(count)`: never past the end. */
  function Prefix<T>(data: seq<T>, count: nat): (r: seq<T>)
    ensures |r| == if |data| < count then |data| else count
    ensures r <= data
  {
    if |data| <= count then data else data[..count]
  }

  /** `data.suffix(count)`: never before the start. */
  function Suffix<T>(data: seq<T>, count: nat): (r: seq<T>)
    ensures |r| == if |data| < count then |data| else count
    ensures r == data[|data| - |r|..]
  {
    if |data| <= count then data else data[|data| - count..]
  }

  /** The last bytes of a byte string carry its value modulo a power of 256. */
  lemma SuffixIsRemainder(data: Data, count: nat)
    requires |data| >= count
    ensures ToNat(Suffix(data, count)) == ToNat(data) % Pow(256, count)
  {
    var low := Suffix(data, count);
    var high := data[..|data| - count];
    assert data == high + low;
    ToNatConcat(high, low);
    ToNatBound(low);
    DivModUnique(ToNat(data), Pow(256, count), ToNat(high), ToNat(low));
  }
}
