/** `bytesConversion` with an explicit unit, and the two rounding rules the
    page relies on, stated on exact rationals: `Math.round` (nearest integer,
    halves upward) and `toFixed(2)` (nearest hundredth, halves away from zero). */
module Units {
  import opened Wrappers

  /** The unit names, indexed by the power of 1000 they stand for. */
  const Sizes: seq<string> := ["Bytes", "KB", "MB"]

  /** `units.indexOf(u)`: the first index holding `u`, or -1. */
  function IndexOf(units: seq<string>, u: string): (i: int)
    ensures -1 <= i < |units|
    ensures i >= 0 ==> units[i] == u && forall j :: 0 <= j < i ==> units[j] != u
    ensures i == -1 <==> u !in units
  {
    if units == [] then -1
    else if units[0] == u then 0
    else
      var k := IndexOf(units[1..], u);
      if k == -1 then -1 else k + 1
  }

  /** `Math.pow(1000, n)`. */
  function Pow1000(n: nat): (p: nat)
    ensures p >= 1
  {
    if n == 0 then 1 else 1000 * Pow1000(n - 1)
  }

  /** `Math.round(n / d)`: the integer nearest to `n / d`, a half rounded up. */
  function RoundHalfUp(n: int, d: int): (r: int)
    requires d > 0
    ensures -d < 2 * (d * r - n) <= d
  {
    (2 * n + d) / (2 * d)
  }

  /** The integer nearest to `n / d` with a half rounded away from zero, which
      is how `toFixed` rounds: on the magnitude, with the sign put back. */
  function RoundHalfAway(n: int, d: int): (r: int)
    requires d > 0
    ensures n >= 0 ==> -d < 2 * (d * r - n) <= d
    ensures n < 0 ==> -d <= 2 * (d * r - n) < d
  {
    if n >= 0 then RoundHalfUp(n, d) else -RoundHalfUp(-n, d)
  }

  /** The nearest-integer description determines the rounded value. */
  lemma RoundHalfUpUnique(n: int, d: int, r: int)
    requires d > 0
    requires -d < 2 * (d * r - n) <= d
    ensures r == RoundHalfUp(n, d)
  {
    var q := RoundHalfUp(n, d);
    assert d * (r - q) == (d * r - n) - (d * q - n);
    MulCancel(d, r - q, 1);
    MulCancel(d, -1, r - q);
  }

  lemma MulCancel(d: int, a: int, b: int)
    requires d > 0 && d * a < d * b
    ensures a < b
  {
  }

  lemma MulLeftMonotone(d: int, a: int, b: int)
    requires d > 0 && a <= b
    ensures d * a <= d * b
  {
  }

  /** Rounding is monotone in the dividend. */
  lemma RoundHalfUpMonotone(n1: int, n2: int, d: int)
    requires d > 0 && n1 <= n2
    ensures RoundHalfUp(n1, d) <= RoundHalfUp(n2, d)
  {
    var r1, r2 := RoundHalfUp(n1, d), RoundHalfUp(n2, d);
    if r2 < r1 {
      MulLeftMonotone(d, r2, r1 - 1);
      assert false;
    }
  }

  /** What `bytesConversion` returns: the string `"0 Byte"` for zero bytes,
      otherwise `{amount, size}` with the amount in hundredths; `size` is
      `undefined` when the unit is not one of `Sizes`. */
  datatype Conversion = ZeroByte | Converted(hundredths: int, size: Option<string>)

  /** `bytesConversion(bytes, size)` for a given `size`: scale by a power of
      1000 (not 1024) and round to two decimals. An unknown unit has index -1,
      so the bytes are multiplied by 1000. */
  function BytesConversion(bytes: int, size: string): (r: Conversion)
    ensures r == ZeroByte <==> bytes == 0
    ensures r.Converted? && size in Sizes ==>
      var d: int := Pow1000(IndexOf(Sizes, size));
      && r.size == Some(size)
      && -d <= 2 * (d * r.hundredths - 100 * bytes) <= d
    ensures r.Converted? && size !in Sizes ==> r.size == None && r.hundredths == 100000 * bytes
  {
    if bytes == 0 then ZeroByte
    else
      var i := IndexOf(Sizes, size);
      if i >= 0 then Converted(RoundHalfAway(100 * bytes, Pow1000(i)), Some(Sizes[i]))
      else Converted(100000 * bytes, None)
  }

  /** `.amount` of the result: `undefined` on the `"0 Byte"` string. */
  function Amount(c: Conversion): Option<int> {
    match c
    case ZeroByte => None
    case Converted(h, _) => Some(h)
  }

  /** Rounding an exact quotient gives the quotient. */
  lemma RoundHalfAwayExact(m: int, d: int)
    requires d > 0
    ensures RoundHalfAway(d * m, d) == m
  {
    if m >= 0 {
      MulLeftMonotone(d, 0, m);
      RoundHalfUpUnique(d * m, d, m);
    } else {
      MulLeftMonotone(d, m, 0);
      assert -(d * m) == d * -m;
      RoundHalfUpUnique(d * -m, d, -m);
    }
  }

  /** A whole number of units converts exactly. */
  lemma ExactMultiple(k: int, i: nat)
    requires k != 0 && i < |Sizes|
    ensures BytesConversion(k * Pow1000(i), Sizes[i]) == Converted(100 * k, Some(Sizes[i]))
  {
    var d := Pow1000(i);
    ScaledRoundsExactly(k, d);
    ListedConversion(k * d, i);
  }

  /** `k` units of `d` bytes are not zero bytes, and their hundredths round
      back to exactly `100 * k`. */
  lemma ScaledRoundsExactly(k: int, d: int)
    requires k != 0 && d > 0
    ensures k * d != 0
    ensures RoundHalfAway(100 * (k * d), d) == 100 * k
  {
    if k > 0 { MulLeftMonotone(d, 1, k); } else { MulLeftMonotone(d, k, -1); }
    assert 100 * (k * d) == d * (100 * k);
    RoundHalfAwayExact(100 * k, d);
  }

  /** With a listed unit, a non-zero byte count is rounded to hundredths of
      that unit and labelled with it. */
  lemma ListedConversion(bytes: int, i: nat)
    requires bytes != 0 && i < |Sizes|
    ensures BytesConversion(bytes, Sizes[i]) == Converted(RoundHalfAway(100 * bytes, Pow1000(i)), Some(Sizes[i]))
  {
    assert IndexOf(Sizes, Sizes[i]) == i;
  }

  /** More positive bytes never give a smaller amount in the same unit. */
  lemma ConversionMonotone(b1: int, b2: int, size: string)
    requires 0 < b1 <= b2
    ensures BytesConversion(b1, size).Converted? && BytesConversion(b2, size).Converted?
    ensures BytesConversion(b1, size).hundredths <= BytesConversion(b2, size).hundredths
  {
    var i := IndexOf(Sizes, size);
    if i >= 0 {
      RoundHalfUpMonotone(100 * b1, 100 * b2, Pow1000(i));
    }
  }

  /** 1 500 000 bytes are 1.5 MB. */
  lemma OnePointFiveMegabytes()
    ensures BytesConversion(1500000, "MB") == Converted(150, Some("MB"))
  {
    assert IndexOf(Sizes, "MB") == 2;
    assert Pow1000(2) == 1000000;
  }
}
