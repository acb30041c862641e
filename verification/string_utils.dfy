/** The pure text helpers of the `su` namespace: number parsing and
    printing, `format`, `trim`, `split` and the small predicates.

    Strings are sequences of C++ `char`s; a character's byte is `Ints.Code`. */
module StringUtils {
  import opened Ints

  // ---------------------------------------------------------------------
  // Digits and numeric values

  predicate IsDigit(c: char) {
    '0' <= c <= '9'
  }

  predicate AllDigits(s: string) {
    forall i | 0 <= i < |s| :: IsDigit(s[i])
  }

  /** The digits `utoa` and `toHex` print, in order of value. */
  const DIGITS := "0123456789ABCDEF"

  /** The value of a digit character: 0..9 for '0'..'9', 10..15 for 'A'..'F'. */
  function CharValue(c: char): (v: nat)
    ensures v < 16
    ensures IsDigit(c) ==> v == c as int - '0' as int
  {
    if IsDigit(c) then c as int - '0' as int
    else if 'A' <= c <= 'F' then c as int - 'A' as int + 10
    else 0
  }

  function DigitChar(v: nat): (c: char)
    requires v < 16
    ensures CharValue(c) == v
    ensures v < 10 ==> IsDigit(c)
  {
    DIGITS[v]
  }

  /** The number a digit string denotes in base b, most significant first. */
  function DigitsValue(s: string, b: nat): nat {
    if |s| == 0 then 0 else b * DigitsValue(s[..|s| - 1], b) + CharValue(s[|s| - 1])
  }

  // ---------------------------------------------------------------------
  // atou

  /** What `atou` returns together with its `error` out-parameter. */
  datatype Parsed = Parsed(value: nat, error: bool)

  /** The digit loop of `atou`, resumed at position i with `acc` already
      holding the truncated value of the first i characters. */
  function AtouFrom(s: string, i: nat, acc: nat, m: nat): (p: Parsed)
    requires i <= |s| && m > 0
    requires AllDigits(s[..i]) && acc == DigitsValue(s[..i], 10) % m
    ensures p.error <==> !AllDigits(s)
    ensures p.error ==> p.value == 0
    ensures !p.error ==> p.value == DigitsValue(s, 10) % m
    decreases |s| - i
  {
    if i == |s| then
      assert s[..i] == s;
      Parsed(acc, false)
    else if !IsDigit(s[i]) then
      Parsed(0, true)
    else
      assert s[..i + 1][..i] == s[..i];
      ModStep(DigitsValue(s[..i], 10), CharValue(s[i]), m);
      AtouFrom(s, i + 1, (acc * 10 + CharValue(s[i])) % m, m)
  }

  /** Truncating after every step of `res * 10 + digit` gives the truncated
      value of the whole number. */
  lemma ModStep(v: nat, d: nat, m: nat)
    requires m > 0
    ensures ((v % m) * 10 + d) % m == (v * 10 + d) % m
  {
    DivModDef(v, m);
    var k := v / m;
    assert v * 10 + d == m * (k * 10) + ((v % m) * 10 + d);
    DivModDef((v % m) * 10 + d, m);
    var j := ((v % m) * 10 + d) / m;
    assert v * 10 + d == m * (k * 10 + j) + ((v % m) * 10 + d) % m;
    DivModUnique(v * 10 + d, m, k * 10 + j, ((v % m) * 10 + d) % m);
  }

  /** `atou<T>`: an error for an empty text, a text longer than 20
      characters or any non-digit; otherwise the decimal value truncated to
      the width of T. */
  function Atou(s: string, w: Width): (p: Parsed)
    ensures p.error <==> |s| == 0 || |s| > 20 || !AllDigits(s)
    ensures p.error ==> p.value == 0
    ensures !p.error ==> p.value == DigitsValue(s, 10) % Modulus(w)
    ensures p.value < Modulus(w)
  {
    if |s| == 0 || |s| > 20 then Parsed(0, true)
    else AtouFrom(s, 0, 0, Modulus(w))
  }

  /** k decimal digits denote less than 10 to the k. */
  lemma {:induction false} DigitsValueBound(s: string)
    requires AllDigits(s)
    ensures DigitsValue(s, 10) < Pow(10, |s|)
    decreases |s|
  {
    if |s| > 0 {
      var t := s[..|s| - 1];
      assert AllDigits(t) by {
        assert forall i | 0 <= i < |t| :: t[i] == s[i];
      }
      DigitsValueBound(t);
      assert CharValue(s[|s| - 1]) <= 9;
      assert Pow(10, |s|) == 10 * Pow(10, |t|);
    }
  }

  // ---------------------------------------------------------------------
  // utoa and toHex

  /** The number of digits of n in base b, the count `utoa` computes when
      it is given size 0. */
  function NumDigits(n: nat, b: nat): (k: nat)
    requires b >= 2
    ensures k >= 1
    decreases n
  {
    if n < b then 1
    else
      DivModDef(n, b);
      MulMono(n / b, 2, b);
      1 + NumDigits(n / b, b)
  }

  /** n has exactly NumDigits(n, b) digits: it lies below b to that power
      and, when it has more than one digit, at or above the next lower power. */
  lemma {:induction false} NumDigitsBounds(n: nat, b: nat)
    requires b >= 2
    ensures n < Pow(b, NumDigits(n, b))
    ensures NumDigits(n, b) > 1 ==> Pow(b, NumDigits(n, b) - 1) <= n
    decreases n
  {
    var k := NumDigits(n, b);
    if n >= b {
      var m := Pow(b, k - 1);
      NumDigitsBounds(n / b, b);
      assert Pow(b, k) == b * m;
      DivModUnique(n / b, m, 0, n / b);
      ModProduct(n, b, m);
      assert n / (b * m) == 0;
      DivModDef(n, b * m);
      assert n < b * m;
      DivModDef(n, b);
      if k - 1 > 1 {
        assert m == b * Pow(b, k - 2);
        MulMono(b, Pow(b, k - 2), n / b);
      } else {
        assert m == b;
      }
    }
  }

  function LowDigits(n: nat, k: nat, b: nat): (r: string)
    requires 2 <= b <= 16
    ensures |r| == k
  {
    if k == 0 then "" else LowDigits(n / b, k - 1, b) + [DigitChar(n % b)]
  }

  lemma {:induction false} LowDigitsValue(n: nat, k: nat, b: nat)
    requires 2 <= b <= 16
    ensures DigitsValue(LowDigits(n, k, b), b) == n % Pow(b, k)
    ensures forall i | 0 <= i < k :: LowDigits(n, k, b)[i] in DIGITS[..b]
  {
    if k > 0 {
      var r := LowDigits(n, k, b);
      LowDigitsValue(n / b, k - 1, b);
      assert r[..k - 1] == LowDigits(n / b, k - 1, b);
      ModProduct(n, b, Pow(b, k - 1));
      assert DIGITS[..b][n % b] == DIGITS[n % b];
    }
  }

  /** `utoa(n, s, size, base)`: the base is clamped to 16; size 0 asks for
      the minimal number of digits, any other size for exactly that many
      low-order digits, zero-padded. A signed argument is printed by the
      magnitude of its value (`abs` of the remainders). */
  function Utoa(n: int, size: nat, base: nat): (r: string)
    requires base >= 2
  {
    var b := if base > 16 then 16 else base;
    var k := if size == 0 then NumDigits(Abs(n), b) else size;
    LowDigits(Abs(n), k, b)
  }

  function Abs(n: int): nat {
    if n < 0 then -n else n
  }

  /** `utoa`'s digits: with size 0 they spell the magnitude exactly with no
      leading zero; with a given size they are its low-order digits. */
  lemma UtoaValue(n: int, size: nat, base: nat)
    requires base >= 2
    ensures var b := if base > 16 then 16 else base;
      var r := Utoa(n, size, base);
      && |r| == (if size == 0 then NumDigits(Abs(n), b) else size)
      && (forall i | 0 <= i < |r| :: r[i] in DIGITS[..b])
      && DigitsValue(r, b) == Abs(n) % Pow(b, |r|)
      && (size == 0 ==> DigitsValue(r, b) == Abs(n))
  {
    var b := if base > 16 then 16 else base;
    var k := if size == 0 then NumDigits(Abs(n), b) else size;
    LowDigitsValue(Abs(n), k, b);
    if size == 0 {
      NumDigitsBounds(Abs(n), b);
      DivModUnique(Abs(n), Pow(b, k), 0, Abs(n));
    }
  }

  /** What `operator<<` prints for an unsigned integer: its decimal digits. */
  function Dec(n: nat): (r: string)
    ensures |r| == NumDigits(n, 10)
    ensures AllDigits(r)
  {
    var r := Utoa(n, 0, 10);
    UtoaValue(n, 0, 10);
    assert forall i | 0 <= i < |r| :: IsDigit(r[i]) by {
      forall i | 0 <= i < |r|
        ensures IsDigit(r[i])
      {
        assert r[i] in DIGITS[..10];
      }
    }
    r
  }

  /** Printing a 64-bit value in decimal and parsing it back with `atou`
      gives the value again without error. */
  lemma AtouDec(n: nat)
    requires n < TWO_64
    ensures Atou(Dec(n), W64) == Parsed(n, false)
  {
    var r := Dec(n);
    UtoaValue(n, 0, 10);
    PowTen20();
    NumDigitsAtMost(n, 10, 20);
    DivModUnique(n, TWO_64, 0, n);
  }

  /** Every 64-bit value lies below 10 to the 20th. */
  lemma PowTen20()
    ensures TWO_64 < Pow(10, 20)
  {
    assert Pow(10, 5) == 100_000;
    PowAdd(10, 5, 5);
    PowAdd(10, 10, 10);
  }

  lemma {:induction false} NumDigitsAtMost(n: nat, b: nat, j: nat)
    requires b >= 2 && j >= 1 && n < Pow(b, j)
    ensures NumDigits(n, b) <= j
    decreases j
  {
    if n >= b {
      assert j > 1;
      assert n / b < Pow(b, j - 1) by {
        ModProduct(n, b, Pow(b, j - 1));
        DivModUnique(n, Pow(b, j), 0, n);
      }
      NumDigitsAtMost(n / b, b, j - 1);
    }
  }

  /** `toHex(value, size)`: upper-case hexadecimal through `utoa` in base 16,
      or an error text when size exceeds the 50-character buffer. */
  function ToHex(v: int, size: nat): (r: string)
    ensures size > 50 ==> r == "*ERROR* size to large"
    ensures size <= 50 ==> |r| == (if size == 0 then NumDigits(Abs(v), 16) else size)
    ensures size <= 50 ==> forall i | 0 <= i < |r| :: r[i] in DIGITS
    ensures size == 0 ==> DigitsValue(r, 16) == Abs(v)
  {
    if size > 50 then "*ERROR* size to large"
    else
      UtoaValue(v, size, 16);
      Utoa(v, size, 16)
  }

  // ---------------------------------------------------------------------
  // format

  /** No `{}` placeholder starts anywhere in f. */
  predicate NoHole(f: string) {
    forall i | 0 <= i < |f| - 1 :: !(f[i] == '{' && f[i + 1] == '}')
  }

  /** `format(fmt, args...)`, with the arguments already printed: every `{}`
      takes the next argument, left to right; inserted text is not searched
      again; once the arguments run out the rest of the text is copied. */
  function Format(f: string, args: seq<string>): string
    decreases |f|
  {
    if |args| == 0 || |f| < 2 then f
    else if f[0] == '{' && f[1] == '}' then args[0] + Format(f[2..], args[1..])
    else [f[0]] + Format(f[1..], args)
  }

  /** The first placeholder after a placeholder-free prefix takes the first
      argument verbatim, whatever the argument contains. */
  lemma {:induction false} FormatHole(p: string, q: string, a: string, rest: seq<string>)
    requires NoHole(p)
    ensures Format(p + "{}" + q, [a] + rest) == p + a + Format(q, rest)
    decreases |p|
  {
    var f := p + "{}" + q;
    if |p| == 0 {
      assert f[2..] == q;
      assert ([a] + rest)[1..] == rest;
    } else {
      assert f[0] == p[0];
      if |p| == 1 {
        assert f[1] == '{';
      } else {
        assert f[1] == p[1];
      }
      assert f[1..] == p[1..] + "{}" + q;
      FormatHole(p[1..], q, a, rest);
    }
  }

  /** Text without placeholders is copied and every argument is dropped. */
  lemma {:induction false} FormatNoHole(f: string, args: seq<string>)
    requires NoHole(f)
    ensures Format(f, args) == f
    decreases |f|
  {
    if |args| > 0 && |f| >= 2 {
      FormatNoHole(f[1..], args);
    }
  }

  /** A text with no `}` at all has no placeholder. */
  lemma NoCloseNoHole(f: string)
    requires '}' !in f
    ensures NoHole(f)
  {
    forall i | 0 <= i < |f| - 1
      ensures !(f[i] == '{' && f[i + 1] == '}')
    {
      assert f[i + 1] in f;
    }
  }

  /** Joining two placeholder-free texts creates none when the first has no
      `{`. */
  lemma NoHoleConcat(a: string, b: string)
    requires NoHole(a) && NoHole(b) && '{' !in a
    ensures NoHole(a + b)
  {
    var f := a + b;
    forall i | 0 <= i < |f| - 1
      ensures !(f[i] == '{' && f[i + 1] == '}')
    {
      if i < |a| {
        assert f[i] == a[i];
        assert a[i] in a;
      } else {
        assert f[i] == b[i - |a|] && f[i + 1] == b[i + 1 - |a|];
      }
    }
  }

  // ---------------------------------------------------------------------
  // trim

  /** The characters `trim` removes: with `includeBelowSpaceChars` every
      (signed) char not above ' ', so also bytes >= 128; otherwise only ' '. */
  predicate IsBlank(c: char, belowSpace: bool) {
    if belowSpace then SignedCode(c) <= 32 else c == ' '
  }

  predicate AllBlank(s: string, belowSpace: bool) {
    forall i | 0 <= i < |s| :: IsBlank(s[i], belowSpace)
  }

  /** The forward scan of `trim`: the first non-blank index at or after i. */
  function SkipBlanks(s: string, i: nat, bs: bool): (j: nat)
    requires i <= |s|
    ensures i <= j <= |s|
    ensures forall k | i <= k < j :: IsBlank(s[k], bs)
    ensures j < |s| ==> !IsBlank(s[j], bs)
    decreases |s| - i
  {
    if i < |s| && IsBlank(s[i], bs) then SkipBlanks(s, i + 1, bs) else i
  }

  /** The backward scan of `trim`, which never goes below index 0. */
  function BackBlanks(s: string, e: nat, bs: bool): (j: nat)
    requires e < |s|
    ensures j <= e
    ensures forall k | j < k <= e :: IsBlank(s[k], bs)
    ensures j > 0 ==> !IsBlank(s[j], bs)
  {
    if e > 0 && IsBlank(s[e], bs) then BackBlanks(s, e - 1, bs) else e
  }

  /** `trim(s, includeBelowSpaceChars)`: the contiguous part of s left after
      removing blanks at both ends; empty exactly when s is all blank. */
  function Trim(s: string, bs: bool): (r: string)
    ensures |r| <= |s|
    ensures r == [] <==> AllBlank(s, bs)
    ensures r != [] ==> !IsBlank(r[0], bs) && !IsBlank(r[|r| - 1], bs)
    ensures exists a :: 0 <= a <= |s| - |r| && r == s[a..a + |r|] &&
                        AllBlank(s[..a], bs) && AllBlank(s[a + |r|..], bs)
  {
    if |s| == 0 then
      assert s == s[0..0] && s[..0] == s[0..];
      ""
    else
      var start := SkipBlanks(s, 0, bs);
      var end := BackBlanks(s, |s| - 1, bs);
      if end >= start then
        var r := s[start..end + 1];
        assert r[0] == s[start] && r[|r| - 1] == s[end];
        assert s[start] in r;
        assert AllBlank(s[..start], bs);
        assert AllBlank(s[end + 1..], bs);
        r
      else
        assert AllBlank(s, bs);
        assert s[..0] == [] && s[0..] == s;
        ""
  }

  /** A text that is empty or has non-blank ends is left as it is. */
  lemma TrimKeeps(s: string, bs: bool)
    requires s == [] || (!IsBlank(s[0], bs) && !IsBlank(s[|s| - 1], bs))
    ensures Trim(s, bs) == s
  {
    if |s| > 0 {
      assert SkipBlanks(s, 0, bs) == 0;
      assert BackBlanks(s, |s| - 1, bs) == |s| - 1;
    }
  }

  /** Trimming twice is trimming once. */
  lemma TrimIdempotent(s: string, bs: bool)
    ensures Trim(Trim(s, bs), bs) == Trim(s, bs)
  {
    TrimKeeps(Trim(s, bs), bs);
  }

  // ---------------------------------------------------------------------
  // split

  /** `std::string::find(c, from)`: the first index at or after `from`
      holding c, or |s| standing for `npos`. */
  function FindChar(s: string, c: char, from: nat): (i: nat)
    requires from <= |s|
    ensures from <= i <= |s|
    ensures i < |s| ==> s[i] == c
    ensures forall k | from <= k < i :: s[k] != c
    decreases |s| - from
  {
    if from == |s| || s[from] == c then from else FindChar(s, c, from + 1)
  }

  function CountChar(s: string, c: char): nat {
    if |s| == 0 then 0 else (if s[0] == c then 1 else 0) + CountChar(s[1..], c)
  }

  /** The pieces between delimiters, as `split` collects them before any
      trimming. */
  function Pieces(s: string, d: char): (r: seq<string>)
    ensures |r| >= 1
    decreases |s|
  {
    var i := FindChar(s, d, 0);
    if i == |s| then [s] else [s[..i]] + Pieces(s[i + 1..], d)
  }

  /** The inverse of splitting: the pieces glued back with the delimiter. */
  function Join(parts: seq<string>, d: char): string {
    if |parts| == 0 then ""
    else if |parts| == 1 then parts[0]
    else parts[0] + [d] + Join(parts[1..], d)
  }

  /** `parts` is a splitting of s at every occurrence of d. */
  predicate SplitsAt(s: string, d: char, parts: seq<string>) {
    && |parts| >= 1
    && Join(parts, d) == s
    && forall k | 0 <= k < |parts| :: d !in parts[k]
  }

  /** The pieces split s at every delimiter, and there is one more piece
      than there are delimiters. */
  lemma {:induction false} PiecesSplit(s: string, d: char)
    ensures SplitsAt(s, d, Pieces(s, d))
    ensures |Pieces(s, d)| == CountChar(s, d) + 1
    decreases |s|
  {
    var i := FindChar(s, d, 0);
    var r := Pieces(s, d);
    if i == |s| {
      assert d !in s;
      CountAbsent(s, d);
    } else {
      PiecesSplit(s[i + 1..], d);
      var rest := Pieces(s[i + 1..], d);
      assert r == [s[..i]] + rest;
      assert r[1..] == rest;
      assert s == s[..i] + [d] + s[i + 1..];
      forall k | 0 <= k < |r|
        ensures d !in r[k]
      {
        if k == 0 {
          assert forall j | 0 <= j < i :: s[..i][j] == s[j];
        } else {
          assert r[k] == rest[k - 1];
        }
      }
      CountAppend(s[..i], d, s[i + 1..]);
      CountAbsent(s[..i], d);
    }
  }

  lemma {:induction false} CountAbsent(s: string, c: char)
    requires c !in s
    ensures CountChar(s, c) == 0
  {
    if |s| > 0 {
      assert s[0] in s;
      assert forall x | x in s[1..] :: x in s;
      CountAbsent(s[1..], c);
    }
  }

  lemma {:induction false} CountAppend(a: string, c: char, b: string)
    ensures CountChar(a + [c] + b, c) == CountChar(a, c) + 1 + CountChar(b, c)
  {
    if |a| == 0 {
      assert a + [c] + b == [c] + b;
      assert ([c] + b)[1..] == b;
    } else {
      assert (a + [c] + b)[1..] == a[1..] + [c] + b;
      CountAppend(a[1..], c, b);
    }
  }

  /** Any splitting of s at d is the one `split` produces. */
  lemma {:induction false} SplitsAtUnique(s: string, d: char, parts: seq<string>)
    requires SplitsAt(s, d, parts)
    ensures parts == Pieces(s, d)
    decreases |s|
  {
    var i := FindChar(s, d, 0);
    var p0 := parts[0];
    if |parts| == 1 {
      assert d !in s;
      forall k | 0 <= k < |s|
        ensures s[k] != d
      {
        assert s[k] in s;
      }
    } else {
      var tail := Join(parts[1..], d);
      assert s == p0 + [d] + tail;
      assert s[|p0|] == d;
      assert forall k | 0 <= k < |p0| :: s[k] == p0[k] && s[k] != d by {
        forall k | 0 <= k < |p0|
          ensures s[k] == p0[k] && s[k] != d
        {
          assert p0[k] in p0;
        }
      }
      assert i == |p0|;
      assert s[..i] == p0;
      assert s[i + 1..] == tail;
      forall k | 0 <= k < |parts[1..]|
        ensures d !in parts[1..][k]
      {
        assert parts[1..][k] == parts[k + 1];
      }
      SplitsAtUnique(tail, d, parts[1..]);
    }
  }

  /** `split(s, delimiter, trim)`: with trim, an empty text gives no pieces
      and every piece is trimmed (blanks below space included). */
  function Split(s: string, d: char, trim: bool): (r: seq<string>)
    ensures trim && |s| == 0 ==> r == []
    ensures !trim ==> SplitsAt(s, d, r)
    ensures !(trim && |s| == 0) ==> |r| == CountChar(s, d) + 1 == |Pieces(s, d)|
    ensures trim ==> forall k | 0 <= k < |r| :: r[k] == Trim(Pieces(s, d)[k], true)
  {
    var parts := Pieces(s, d);
    PiecesSplit(s, d);
    if trim && |s| == 0 then [] else if trim then TrimAll(parts) else parts
  }

  /** The pieces, each trimmed when `trim` is set. */
  function Shape(parts: seq<string>, trim: bool): (r: seq<string>)
    ensures |r| == |parts|
  {
    if trim then TrimAll(parts) else parts
  }

  function TrimAll(parts: seq<string>): (r: seq<string>)
    ensures |r| == |parts|
    ensures forall k | 0 <= k < |r| :: r[k] == Trim(parts[k], true)
  {
    if |parts| == 0 then [] else [Trim(parts[0], true)] + TrimAll(parts[1..])
  }

  /** One piece as `split` stores it. */
  function ShapeOne(x: string, trim: bool): string {
    if trim then Trim(x, true) else x
  }

  lemma ShapeSnoc(parts: seq<string>, x: string, trim: bool)
    ensures Shape(parts + [x], trim) == Shape(parts, trim) + [ShapeOne(x, trim)]
  {
    if trim {
      var l := TrimAll(parts + [x]);
      assert l == TrimAll(parts) + [Trim(x, true)];
    }
  }

  /** One round of the `split` loop: the piece up to the next delimiter
      moves from the pieces still to come to the pieces done. */
  lemma SplitStep(s: string, d: char, start: nat, end: nat, done: seq<string>)
    requires start <= end < |s| && end == FindChar(s, d, start)
    requires done + Pieces(s[start..], d) == Pieces(s, d)
    ensures (done + [s[start..end]]) + Pieces(s[end + 1..], d) == Pieces(s, d)
  {
    PiecesAfter(s, d, start, end);
    var rest := Pieces(s[end + 1..], d);
    assert done + ([s[start..end]] + rest) == (done + [s[start..end]]) + rest;
  }

  /** The loop invariant of `split` survives one round. */
  lemma SplitRound(s: string, d: char, trim: bool, start: nat, end: nat, done: seq<string>, ret: seq<string>,
                   start': nat, done': seq<string>, ret': seq<string>)
    requires start <= end < |s| && end == FindChar(s, d, start)
    requires done + Pieces(s[start..], d) == Pieces(s, d)
    requires ret == Shape(done, trim)
    requires start' == end + 1 && done' == done + [s[start..end]] && ret' == ret + [ShapeOne(s[start..end], trim)]
    ensures start' <= |s| && done' + Pieces(s[start'..], d) == Pieces(s, d)
    ensures ret' == Shape(done', trim)
  {
    SplitStep(s, d, start, end, done);
    ShapeSnoc(done, s[start..end], trim);
  }

  /** The loop of `split` as written: repeated `find` from the position
      after the last delimiter, one piece per delimiter, then the tail. */
  method SplitLoop(s: string, d: char, trim: bool) returns (ret: seq<string>)
    ensures ret == Split(s, d, trim)
  {
    ret := [];
    if trim && |s| == 0 {
      return;
    }
    var start := 0;
    var end := FindChar(s, d, start);
    ghost var done: seq<string> := [];
    assert s[start..] == s;
    while end < |s|
      invariant start <= end <= |s|
      invariant end == FindChar(s, d, start)
      invariant done + Pieces(s[start..], d) == Pieces(s, d)
      invariant ret == Shape(done, trim)
      decreases |s| - start
    {
      var token := s[start..end];
      ghost var done0, ret0, start0, end0 := done, ret, start, end;
      ret := ret + [ShapeOne(token, trim)];
      done := done + [token];
      start := end + 1;
      SplitRound(s, d, trim, start0, end0, done0, ret0, start, done, ret);
      end := FindChar(s, d, start);
    }
    SplitLast(s, d, trim, start, done, ret);
    ret := ret + [ShapeOne(s[start..], trim)];
  }

  /** After the last delimiter the rest of the text is the last piece. */
  lemma SplitLast(s: string, d: char, trim: bool, start: nat, done: seq<string>, ret: seq<string>)
    requires start <= |s| && FindChar(s, d, start) == |s| && !(trim && |s| == 0)
    requires done + Pieces(s[start..], d) == Pieces(s, d)
    requires ret == Shape(done, trim)
    ensures ret + [ShapeOne(s[start..], trim)] == Split(s, d, trim)
  {
    PiecesAfter(s, d, start, |s|);
    ShapeSnoc(done, s[start..], trim);
  }

  /** The pieces of a suffix, seen from the `find` the loop performs. */
  lemma PiecesAfter(s: string, d: char, start: nat, end: nat)
    requires start <= |s| && end == FindChar(s, d, start)
    ensures Pieces(s[start..], d) ==
      if end < |s| then [s[start..end]] + Pieces(s[end + 1..], d) else [s[start..]]
  {
    var j := FindChar(s[start..], d, 0);
    assert end == start + j by {
      FindShift(s, d, start, j);
    }
    if end < |s| {
      PiecesAtDelimiter(s, d, start, j);
    } else {
      PiecesAtEnd(s, d, start, j);
    }
  }

  lemma PiecesAtEnd(s: string, d: char, start: nat, j: nat)
    requires start + j == |s| && j == FindChar(s[start..], d, 0)
    ensures Pieces(s[start..], d) == [s[start..]]
  {
  }

  lemma PiecesAtDelimiter(s: string, d: char, start: nat, j: nat)
    requires start + j < |s| && j == FindChar(s[start..], d, 0)
    ensures Pieces(s[start..], d) == [s[start..start + j]] + Pieces(s[start + j + 1..], d)
  {
    var t := s[start..];
    assert Pieces(t, d) == [t[..j]] + Pieces(t[j + 1..], d);
    SuffixSlices(s, start, j);
  }

  lemma SuffixSlices(s: string, start: nat, j: nat)
    requires start + j < |s|
    ensures s[start..][..j] == s[start..start + j] && s[start..][j + 1..] == s[start + j + 1..]
  {
  }

  lemma FindShift(s: string, d: char, start: nat, j: nat)
    requires start <= |s| && j == FindChar(s[start..], d, 0)
    ensures FindChar(s, d, start) == start + j
  {
    var t := s[start..];
    forall k | start <= k < |s|
      ensures s[k] == t[k - start]
    {
    }
  }

  // ---------------------------------------------------------------------
  // startsWith, endsWith, replaceAll, isIdentifier

  /** `startsWith` on two `std::string`s (`compare` does not stop at NUL). */
  function StartsWith(s: string, starting: string): (r: bool)
    ensures r <==> exists t :: s == starting + t
  {
    assert forall t :: s == starting + t ==> s[..|starting|] == starting;
    var r := |s| >= |starting| && s[..|starting|] == starting;
    assert r ==> s == starting + s[|starting|..];
    r
  }

  function EndsWith(s: string, ending: string): (r: bool)
    ensures r <==> exists t :: s == t + ending
  {
    assert forall t :: s == t + ending ==> s[|t|..] == ending;
    var r := |s| >= |ending| && s[|s| - |ending|..] == ending;
    assert r ==> s == s[..|s| - |ending|] + ending;
    r
  }

  /** `replaceAll(text, from, to)`: every occurrence of `from`, found left to
      right and without overlaps, is replaced; an empty `from` changes
      nothing; text produced by a replacement is not searched again. */
  function ReplaceAll(text: string, from: string, to: string): string {
    if |from| == 0 then text else ReplaceFrom(text, from, to)
  }

  function ReplaceFrom(s: string, from: string, to: string): string
    requires |from| > 0
    decreases |s|
  {
    if |s| < |from| then s
    else if s[..|from|] == from then to + ReplaceFrom(s[|from|..], from, to)
    else [s[0]] + ReplaceFrom(s[1..], from, to)
  }

  /** Replacing one character by another maps the text character-wise. */
  lemma {:induction false} ReplaceChar(s: string, f: char, t: char)
    ensures |ReplaceAll(s, [f], [t])| == |s|
    ensures forall i | 0 <= i < |s| ::
      ReplaceAll(s, [f], [t])[i] == if s[i] == f then t else s[i]
    decreases |s|
  {
    if |s| > 0 {
      ReplaceChar(s[1..], f, t);
      assert s[..1] == [s[0]];
      var r := ReplaceAll(s, [f], [t]);
      var r' := ReplaceAll(s[1..], [f], [t]);
      assert r == [if s[0] == f then t else s[0]] + r';
    }
  }

  /** `from` occurs in s at position i. */
  predicate OccursAt(s: string, from: string, i: nat) {
    i + |from| <= |s| && s[i..i + |from|] == from
  }

  /** No occurrence of `from` starts inside x. */
  predicate NoMatch(x: string, from: string) {
    forall i | 0 <= i < |x| :: !OccursAt(x, from, i)
  }

  /** The parts, the separator between each two. */
  function JoinWith(parts: seq<string>, sep: string): string
    requires |parts| > 0
  {
    if |parts| == 1 then parts[0] else parts[0] + sep + JoinWith(parts[1..], sep)
  }

  /** No occurrence of `from` starts inside x before the one that follows
      it. */
  predicate MatchFollows(x: string, from: string) {
    forall i | 0 <= i < |x| :: !OccursAt(x + from, from, i)
  }

  /** s cut at the occurrences of `from` that a left-to-right search
      without overlaps finds: each part but the last is followed by the
      occurrence the search finds next, and the last part holds none. */
  predicate MatchSplit(s: string, from: string, parts: seq<string>) {
    && |parts| > 0
    && s == JoinWith(parts, from)
    && (forall i | 0 <= i < |parts| - 1 :: MatchFollows(parts[i], from))
    && NoMatch(parts[|parts| - 1], from)
  }

  /** `replaceAll` puts `to` where the search found `from`, and keeps the
      text between: it is a join of the match split with `to`. */
  lemma {:induction false} ReplaceBySplit(s: string, from: string, to: string, parts: seq<string>)
    requires |from| > 0 && MatchSplit(s, from, parts)
    ensures ReplaceAll(s, from, to) == JoinWith(parts, to)
    decreases |s|
  {
    var x := parts[0];
    if |x| > 0 {
      var parts' := [x[1..]] + parts[1..];
      var tail := if |parts| == 1 then "" else from + JoinWith(parts[1..], from);
      var tail' := if |parts| == 1 then "" else to + JoinWith(parts[1..], to);
      JoinHead(parts, from);
      JoinHead(parts, to);
      JoinHead(parts', from);
      JoinHead(parts', to);
      assert !OccursAt(s, from, 0) by {
        NoMatchAtFront(parts, from);
      }
      if |s| >= |from| {
        MatchSplitShift(s, from, parts, parts');
        ReplaceBySplit(s[1..], from, to, parts');
        assert s[..|from|] != from;
        assert [x[0]] + (x[1..] + tail') == x + tail';
      }
    } else if |parts| > 1 {
      JoinHead(parts, from);
      JoinHead(parts, to);
      assert s == from + JoinWith(parts[1..], from);
      assert s[..|from|] == from && s[|from|..] == JoinWith(parts[1..], from);
      assert MatchSplit(s[|from|..], from, parts[1..]);
      ReplaceBySplit(s[|from|..], from, to, parts[1..]);
    }
  }

  lemma JoinHead(parts: seq<string>, sep: string)
    requires |parts| > 0
    ensures |parts| == 1 ==> JoinWith(parts, sep) == parts[0]
    ensures |parts| > 1 ==> JoinWith(parts, sep) == parts[0] + (sep + JoinWith(parts[1..], sep))
  {
  }

  /** A first part that is not empty does not start with an occurrence. */
  lemma NoMatchAtFront(parts: seq<string>, from: string)
    requires |parts| > 0 && |parts[0]| > 0 && |from| > 0
    requires |parts| > 1 ==> MatchFollows(parts[0], from)
    requires |parts| == 1 ==> NoMatch(parts[0], from)
    ensures !OccursAt(JoinWith(parts, from), from, 0)
  {
    var x := parts[0];
    if |parts| > 1 {
      JoinHead(parts, from);
      var s := JoinWith(parts, from);
      assert !OccursAt(x + from, from, 0);
      assert s == (x + from) + JoinWith(parts[1..], from);
      assert |from| <= |x + from|;
      assert s[..|from|] == (x + from)[..|from|];
    }
  }

  /** Dropping the first character of a non-empty first part keeps a match
      split. */
  lemma MatchSplitShift(s: string, from: string, parts: seq<string>, parts': seq<string>)
    requires MatchSplit(s, from, parts) && |parts[0]| > 0 && parts' == [parts[0][1..]] + parts[1..]
    ensures MatchSplit(s[1..], from, parts')
  {
    var x := parts[0];
    JoinHead(parts, from);
    JoinHead(parts', from);
    assert x[1..] + from == (x + from)[1..];
    forall i | 0 <= i < |x| - 1
      ensures |parts| > 1 ==> !OccursAt(x[1..] + from, from, i)
      ensures |parts| == 1 ==> !OccursAt(x[1..], from, i)
    {
      OccursShift(x + from, from, i);
      OccursShift(x, from, i);
    }
    assert forall i | 1 <= i < |parts'| :: parts'[i] == parts[i];
  }

  /** An occurrence in y without its first character is one in y, one
      position on. */
  lemma OccursShift(y: string, from: string, i: nat)
    requires |y| > 0
    ensures OccursAt(y[1..], from, i) <==> OccursAt(y, from, i + 1)
  {
    if i + |from| <= |y| - 1 {
      assert y[1..][i..i + |from|] == y[i + 1..i + 1 + |from|];
    }
  }

  /** The match split `replaceAll` follows. */
  function MatchParts(s: string, from: string): (r: seq<string>)
    requires |from| > 0
    ensures MatchSplit(s, from, r)
    decreases |s|
  {
    if |s| < |from| then
      assert NoMatch(s, from);
      [s]
    else if s[..|from|] == from then
      var rest := MatchParts(s[|from|..], from);
      JoinHead([""] + rest, from);
      assert ([""] + rest)[1..] == rest;
      [""] + rest
    else
      var rest := MatchParts(s[1..], from);
      var r := [[s[0]] + rest[0]] + rest[1..];
      MatchSplitUnshift(s, from, rest, r);
      r
  }

  /** Putting back a first character that starts no occurrence keeps a
      match split. */
  lemma MatchSplitUnshift(s: string, from: string, rest: seq<string>, r: seq<string>)
    requires |s| >= |from| > 0 && s[..|from|] != from
    requires MatchSplit(s[1..], from, rest) && r == [[s[0]] + rest[0]] + rest[1..]
    ensures MatchSplit(s, from, r)
  {
    var x := [s[0]] + rest[0];
    JoinHead(rest, from);
    JoinHead(r, from);
    assert s == [s[0]] + s[1..];
    assert r[1..] == rest[1..];
    forall i | 0 <= i < |x|
      ensures |r| > 1 ==> !OccursAt(x + from, from, i)
      ensures |r| == 1 ==> !OccursAt(x, from, i)
    {
      if i == 0 {
        if |r| > 1 {
          assert s == (x + from) + JoinWith(rest[1..], from);
          assert s[..|from|] == (x + from)[..|from|];
        } else {
          assert s == x;
        }
      } else {
        assert (x + from)[1..] == rest[0] + from && x[1..] == rest[0];
        OccursShift(x + from, from, i - 1);
        OccursShift(x, from, i - 1);
      }
    }
    assert forall i | 1 <= i < |r| :: r[i] == rest[i];
  }

  /** `replaceAll` joins the pieces between the occurrences of `from` it
      finds with `to`; with an empty `from` it returns the text. */
  lemma ReplaceAllJoins(s: string, from: string, to: string)
    ensures |from| > 0 ==> ReplaceAll(s, from, to) == JoinWith(MatchParts(s, from), to)
    ensures |from| == 0 ==> ReplaceAll(s, from, to) == s
  {
    if |from| > 0 {
      ReplaceBySplit(s, from, to, MatchParts(s, from));
    }
  }

  /** Text without an occurrence of `from` comes back unchanged. */
  lemma ReplaceAbsent(s: string, from: string, to: string)
    requires NoMatch(s, from)
    ensures ReplaceAll(s, from, to) == s
  {
    if |from| > 0 {
      ReplaceBySplit(s, from, to, [s]);
    }
  }

  /** Replacing `from` by itself changes nothing. */
  lemma ReplaceSame(s: string, from: string)
    ensures ReplaceAll(s, from, from) == s
  {
    if |from| > 0 {
      ReplaceBySplit(s, from, from, MatchParts(s, from));
    }
  }

  /** The result can hold an occurrence of `from` that the search never
      saw: removing "ab" from "aabb" joins an "a" and a "b" into a new
      one. */
  lemma ReplaceCanJoinOccurrence()
    ensures ReplaceAll("aabb", "ab", "") == "ab"
  {
    assert "aabb"[..2][1] == 'a';
    assert "aabb"[1..] == "abb" && "abb"[..2] == "ab";
    assert "abb"[2..] == "b";
  }

  predicate IsAlnum(c: char) {
    IsDigit(c) || ('a' <= c <= 'z') || ('A' <= c <= 'Z')
  }

  predicate IdentifierChar(c: char) {
    IsAlnum(c) || c == '.' || c == '_' || c == '-'
  }

  /** The scan of `isIdentifier` from position pos. */
  function IdentifierFrom(text: string, pos: nat): (r: bool)
    requires pos <= |text|
    ensures r <==> forall i | pos <= i < |text| :: IdentifierChar(text[i])
    decreases |text| - pos
  {
    if pos == |text| then true
    else if !IdentifierChar(text[pos]) then false
    else IdentifierFrom(text, pos + 1)
  }

  /** `isIdentifier`: only letters, digits, '.', '_' and '-'. */
  function IsIdentifier(text: string): (r: bool)
    ensures r <==> forall i | 0 <= i < |text| :: IdentifierChar(text[i])
  {
    IdentifierFrom(text, 0)
  }
}
