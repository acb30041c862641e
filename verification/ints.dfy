/** Fixed-width integer helpers shared by the models: the C++ code works on
    uint8/16/32/64 values and on `char` bytes, which Dafny's unbounded `int`
    needs spelled out. */
module Ints {

  const TWO_8: nat := 0x100
  const TWO_16: nat := 0x1_0000
  const TWO_32: nat := 0x1_0000_0000
  const TWO_64: nat := 0x1_0000_0000_0000_0000

  /** The unsigned integer types the templates are instantiated with. */
  datatype Width = W8 | W16 | W32 | W64

  function Modulus(w: Width): (m: nat)
    ensures m >= TWO_8
  {
    match w
    case W8 => TWO_8
    case W16 => TWO_16
    case W32 => TWO_32
    case W64 => TWO_64
  }

  /** The byte a C++ `char` holds (what a cast to `uint8_t` yields). */
  function Code(c: char): (b: nat)
    ensures b < 256
  {
    (c as int) % 256
  }

  /** A character below 256 is its own byte. */
  lemma CodeSmall(c: char)
    requires c as int < 256
    ensures Code(c) == c as int
  {
    DivModUnique(c as int, 256, 0, c as int);
  }

  /** The value of a C++ `char` on a platform where `char` is signed. */
  function SignedCode(c: char): (v: int)
    ensures -128 <= v < 128
    ensures v == Code(c) || v == Code(c) - 256
  {
    if Code(c) >= 128 then Code(c) - 256 else Code(c)
  }

  /** b to the power k. */
  function Pow(b: nat, k: nat): (p: nat)
    ensures b >= 1 ==> p >= 1
  {
    if k == 0 then 1 else b * Pow(b, k - 1)
  }

  /** The `count` low-order bytes of `n`, least significant first: how a
      little-endian machine stores an unsigned integer of `count` bytes. */
  function LeBytes(n: nat, count: nat): (r: seq<bv8>)
    ensures |r| == count
  {
    if count == 0 then [] else [(n % 256) as bv8] + LeBytes(n / 256, count - 1)
  }

  /** The unsigned value of little-endian bytes. */
  function LeValue(bs: seq<bv8>): (v: nat)
    ensures v < Pow(256, |bs|)
  {
    if |bs| == 0 then 0 else bs[0] as nat + 256 * LeValue(bs[1..])
  }

  /** Division with a known quotient and remainder. */
  lemma DivModUnique(n: int, d: int, q: int, x: int)
    requires d > 0 && 0 <= x < d && n == d * q + x
    ensures n / d == q && n % d == x
  {
    var q', x' := n / d, n % d;
    assert d * q' + x' == d * q + x;
    if q' > q {
      MulAtLeast(d, q' - q);
      assert false;
    } else if q' < q {
      MulAtLeast(d, q - q');
      assert false;
    }
  }

  /** The defining equation of Euclidean division. */
  lemma DivModDef(n: int, d: int)
    requires d > 0
    ensures n == d * (n / d) + n % d && 0 <= n % d < d
  {
  }

  lemma MulAssoc(a: int, b: int, c: int)
    ensures a * (b * c) == (a * b) * c
  {
  }

  /** A positive multiple of d is at least d. */
  lemma {:induction false} MulAtLeast(d: int, k: int)
    requires d > 0 && k >= 1
    ensures d * k >= d
  {
    if k > 1 {
      MulAtLeast(d, k - 1);
      assert d * k == d * (k - 1) + d;
    }
  }

  /** Powers add their exponents when multiplied. */
  lemma {:induction false} PowAdd(b: nat, i: nat, j: nat)
    ensures Pow(b, i + j) == Pow(b, i) * Pow(b, j)
  {
    if i > 0 {
      PowAdd(b, i - 1, j);
      MulAssoc(b, Pow(b, i - 1), Pow(b, j));
    }
  }

  /** Multiplying by a non-negative factor keeps the order. */
  lemma MulMono(a: nat, x: int, y: int)
    requires x <= y
    ensures a * x <= a * y
  {
    if a > 0 && x < y {
      MulAtLeast(a, y - x);
      assert a * y - a * x == a * (y - x);
    }
  }

  /** Storing a value little-endian and reading it back yields the value
      truncated to the stored width. */
  lemma {:induction false} LeRoundTrip(n: nat, count: nat)
    ensures LeValue(LeBytes(n, count)) == n % Pow(256, count)
  {
    if count > 0 {
      var m := Pow(256, count - 1);
      var q, r := n / 256, n % 256;
      LeRoundTrip(q, count - 1);
      var bs := LeBytes(n, count);
      assert bs[1..] == LeBytes(q, count - 1);
      assert bs[0] as nat == r by {
        ByteRoundTrip(r);
      }
      assert LeValue(bs) == r + 256 * (q % m);
      ModProduct(n, 256, m);
    }
  }

  /** Splitting off the lowest digit in base b: the remainder modulo b*m is
      the lowest digit plus b times the remainder of the rest modulo m. */
  lemma ModProduct(n: nat, b: nat, m: nat)
    requires b > 0 && m > 0
    ensures n % (b * m) == n % b + b * (n / b % m)
    ensures n / (b * m) == n / b / m
  {
    var q, r := n / b, n % b;
    var a, c := q / m, q % m;
    DivModDef(n, b);
    DivModDef(q, m);
    MulAssoc(b, m, a);
    assert b * q == b * (m * a) + b * c;
    MulAtLeast(b, m - c);
    assert b * c + r < b * m by {
      assert b * (m - c) == b * m - b * c;
    }
    DivModUnique(n, b * m, a, r + b * c);
  }

  /** Reading little-endian bytes then storing the value again gives back
      the same bytes. */
  lemma {:induction false} LeBytesOfValue(bs: seq<bv8>)
    ensures LeBytes(LeValue(bs), |bs|) == bs
  {
    if |bs| > 0 {
      var v := LeValue(bs);
      DivModUnique(v, 256, LeValue(bs[1..]), bs[0] as nat);
      LeBytesOfValue(bs[1..]);
      assert (v % 256) as bv8 == bs[0];
    }
  }

  /** Converting a byte-sized integer to `bv8` and back is the identity. */
  lemma ByteRoundTrip(x: nat)
    requires x < 256
    ensures (x as bv8) as nat == x
  {
    ByteMod(x);
    DivModUnique(x, 256, 0, x);
  }

  lemma ByteMod(x: nat)
    requires x < 256
    ensures (x as bv8) as nat == x % 256
  {
  }

  /** The value of a two's-complement 32-bit integer stored as `u`. */
  function ToInt32(u: nat): (v: int)
    requires u < TWO_32
    ensures -0x8000_0000 <= v < 0x8000_0000
    ensures (v + TWO_32) % TWO_32 == u
  {
    if u >= 0x8000_0000 then u - TWO_32 else u
  }

  /** Concatenation is associative; stated once so that long chains of
      appends can be regrouped one step at a time. */
  lemma AppendAssoc<T>(a: seq<T>, b: seq<T>, c: seq<T>)
    ensures (a + b) + c == a + (b + c)
  {
  }
}
