/** `su::escape` and `su::escapeJSON`: byte-wise rewriting of text into
    printable ASCII, for log lines and JSON string bodies. */
module StringEscape {
  import opened Ints
  import opened StringUtils

  /** A character of the text produced: printable ASCII. */
  predicate Printable(c: char) {
    32 <= c as int <= 126
  }

  /** Every character is a single byte, as in a C++ `std::string`. */
  predicate Bytes(s: string) {
    forall i | 0 <= i < |s| :: s[i] as int < 256
  }

  /** The character `(char)c` for a byte c. */
  function ByteChar(b: nat): (c: char)
    requires b < 256
    ensures c as int == b && Code(c) == b
  {
    CodeSmall(b as char);
    b as char
  }

  /** Hex digits are printable and need no JSON escape. */
  lemma HexPlain(c: char)
    requires IsHex(c)
    ensures Printable(c) && !JsonSpecial(c) && Code(c) != 10 && Code(c) != '\\' as int
  {
    CodeSmall(c);
  }

  predicate IsHex(c: char) {
    IsDigit(c) || 'A' <= c <= 'F'
  }

  /** The two upper-case hexadecimal digits of a byte, high nibble first. */
  function Hex2(b: nat): (r: string)
    requires b < 256
    ensures |r| == 2 && IsHex(r[0]) && IsHex(r[1])
    ensures 16 * CharValue(r[0]) + CharValue(r[1]) == b
  {
    [DigitChar(b / 16), DigitChar(b % 16)]
  }

  // ---------------------------------------------------------------------
  // escapeJSON

  /** The bytes `escapeJSON` rewrites: quotes, braces, brackets and
      everything outside 32..126. */
  predicate JsonSpecial(c: char) {
    var b := Code(c);
    b == 34 || b == 39 || b == 123 || b == 125 || b == 91 || b == 93 || b < 32 || b > 126
  }

  function EscapeJsonChar(c: char): (r: string)
    ensures JsonSpecial(c) ==> |r| == 6 && r[..4] == "\\u00" && r[4..] == Hex2(Code(c))
    ensures !JsonSpecial(c) ==> |r| == 1 && Code(r[0]) == Code(c)
    ensures forall i | 0 <= i < |r| :: Printable(r[i]) && !JsonSpecial(r[i])
  {
    if JsonSpecial(c) then
      var h := Hex2(Code(c));
      HexPlain(h[0]);
      HexPlain(h[1]);
      "\\u00" + h
    else [ByteChar(Code(c))]
  }

  function CountJsonSpecial(s: string): nat {
    if |s| == 0 then 0 else (if JsonSpecial(s[0]) then 1 else 0) + CountJsonSpecial(s[1..])
  }

  /** `escapeJSON(text)`: every special byte becomes `\u00` and two upper-case
      hex digits, every other byte is copied; the result is printable, free
      of quotes, braces and brackets, and 5 characters longer per special
      byte. */
  function EscapeJson(s: string): (r: string)
    ensures |r| == |s| + 5 * CountJsonSpecial(s)
    ensures forall i | 0 <= i < |r| :: Printable(r[i]) && !JsonSpecial(r[i])
  {
    if |s| == 0 then ""
    else
      var h, t := EscapeJsonChar(s[0]), EscapeJson(s[1..]);
      assert forall i | |h| <= i < |h + t| :: (h + t)[i] == t[i - |h|];
      h + t
  }

  /** The rewriting is byte by byte: escaping a concatenation escapes each
      part. */
  lemma {:induction false} EscapeJsonAppend(a: string, b: string)
    ensures EscapeJson(a + b) == EscapeJson(a) + EscapeJson(b)
  {
    if |a| > 0 {
      assert (a + b)[1..] == a[1..] + b;
      EscapeJsonAppend(a[1..], b);
    } else {
      assert a + b == b;
    }
  }

  /** Reading `\u00XX` back as the byte XX, the inverse of `escapeJSON`. */
  function UnescapeJson(t: string): string {
    if |t| == 0 then ""
    else if |t| >= 6 && t[..4] == "\\u00" && IsHex(t[4]) && IsHex(t[5]) then
      [ByteChar(16 * CharValue(t[4]) + CharValue(t[5]))] + UnescapeJson(t[6..])
    else [t[0]] + UnescapeJson(t[1..])
  }

  /** One escaped byte followed by any text reads back as that byte. */
  lemma UnescapeJsonChar(c: char, t: string)
    requires c as int < 256 && c != '\\'
    ensures UnescapeJson(EscapeJsonChar(c) + t) == [c] + UnescapeJson(t)
  {
    CodeSmall(c);
    var h := EscapeJsonChar(c);
    if JsonSpecial(c) {
      assert (h + t)[..4] == "\\u00" && (h + t)[4] == h[4] && (h + t)[5] == h[5];
      assert (h + t)[6..] == t;
    } else {
      assert (h + t)[0] == c;
      assert (h + t)[1..] == t;
    }
  }

  /** A byte text without backslashes survives `escapeJSON` unchanged in
      meaning: reading the escapes back gives the original text. */
  lemma {:induction false} EscapeJsonRoundTrip(s: string)
    requires Bytes(s) && '\\' !in s
    ensures UnescapeJson(EscapeJson(s)) == s
  {
    if |s| > 0 {
      assert s[0] in s;
      assert forall x | x in s[1..] :: x in s;
      EscapeJsonRoundTrip(s[1..]);
      UnescapeJsonChar(s[0], EscapeJson(s[1..]));
    }
  }

  /** Backslashes are copied, so a text that already spells an escape
      cannot be told apart from the character it stands for. */
  lemma EscapeJsonNotInjective()
    ensures EscapeJson("\\u0022") == EscapeJson("\"")
  {
    EscapeJsonQuote();
    EscapeJsonPlain("\\u0022");
  }

  lemma EscapeJsonQuote()
    ensures EscapeJson("\"") == "\\u0022"
  {
    assert Code('"') == 34 && JsonSpecial('"');
    var h := Hex2(34);
    assert h == "22";
    var c := EscapeJsonChar('"');
    assert c == "\\u00" + h;
    assert EscapeJson("\"") == c + EscapeJson("");
    assert "\\u00" + "22" + "" == "\\u0022";
  }

  /** Text without special bytes is left alone. */
  lemma {:induction false} EscapeJsonPlain(s: string)
    requires Bytes(s) && forall i | 0 <= i < |s| :: !JsonSpecial(s[i])
    ensures EscapeJson(s) == s
  {
    if |s| > 0 {
      CodeSmall(s[0]);
      assert s[0] in s;
      EscapeJsonPlain(s[1..]);
      assert s == [s[0]] + s[1..];
    }
  }

  // ---------------------------------------------------------------------
  // escape

  /** The bytes `escape` rewrites as `\x` and two hex digits. */
  predicate NonPrintableByte(c: char) {
    var b := Code(c);
    b != 10 && (b < 32 || b > 126)
  }

  function EscapeChar(c: char): (r: string)
    ensures Code(c) == 10 ==> r == "\\n"
    ensures NonPrintableByte(c) ==> |r| == 4 && r[..2] == "\\x" && r[2..] == Hex2(Code(c))
    ensures 32 <= Code(c) <= 126 ==> |r| == 1 && Code(r[0]) == Code(c)
    ensures forall i | 0 <= i < |r| :: Printable(r[i])
  {
    var b := Code(c);
    if b == 10 then "\\n"
    else if b < 32 || b > 126 then
      var h := Hex2(b);
      HexPlain(h[0]);
      HexPlain(h[1]);
      "\\x" + h
    else [ByteChar(b)]
  }

  function CountByte(s: string, b: nat): nat {
    if |s| == 0 then 0 else (if Code(s[0]) == b then 1 else 0) + CountByte(s[1..], b)
  }

  function CountNonPrintable(s: string): nat {
    if |s| == 0 then 0 else (if NonPrintableByte(s[0]) then 1 else 0) + CountNonPrintable(s[1..])
  }

  /** `escape(text)`: a newline becomes `\n`, other bytes outside 32..126
      become `\x` and two upper-case hex digits, printable bytes are copied;
      the result is printable. */
  function Escape(s: string): (r: string)
    ensures |r| == |s| + CountByte(s, 10) + 3 * CountNonPrintable(s)
    ensures forall i | 0 <= i < |r| :: Printable(r[i])
  {
    if |s| == 0 then ""
    else
      var h, t := EscapeChar(s[0]), Escape(s[1..]);
      assert forall i | |h| <= i < |h + t| :: (h + t)[i] == t[i - |h|];
      h + t
  }

  /** Reading `\n` and `\xXX` back, the inverse of `escape`. */
  function Unescape(t: string): string {
    if |t| == 0 then ""
    else if |t| >= 2 && t[..2] == "\\n" then "\n" + Unescape(t[2..])
    else if |t| >= 4 && t[..2] == "\\x" && IsHex(t[2]) && IsHex(t[3]) then
      [ByteChar(16 * CharValue(t[2]) + CharValue(t[3]))] + Unescape(t[4..])
    else [t[0]] + Unescape(t[1..])
  }

  /** One escaped byte followed by any text reads back as that byte. */
  lemma UnescapeChar(c: char, t: string)
    requires c as int < 256 && c != '\\'
    ensures Unescape(EscapeChar(c) + t) == [c] + Unescape(t)
  {
    CodeSmall(c);
    var h := EscapeChar(c);
    var b := Code(c);
    if b == 10 {
      UnescapeNewline(t);
    } else if b < 32 || b > 126 {
      var x := Hex2(b);
      assert h[2] == x[0] && h[3] == x[1];
      UnescapeHex(h, t);
    } else {
      assert h == [c];
      UnescapePlain(c, t);
    }
  }

  lemma UnescapeNewline(t: string)
    ensures Unescape("\\n" + t) == "\n" + Unescape(t)
  {
    assert ("\\n" + t)[..2] == "\\n";
    assert ("\\n" + t)[2..] == t;
  }

  lemma UnescapeHex(h: string, t: string)
    requires |h| == 4 && h[..2] == "\\x" && IsHex(h[2]) && IsHex(h[3])
    ensures Unescape(h + t) == [ByteChar(16 * CharValue(h[2]) + CharValue(h[3]))] + Unescape(t)
  {
    assert (h + t)[..2] == "\\x" && (h + t)[2] == h[2] && (h + t)[3] == h[3];
    assert (h + t)[4..] == t;
  }

  lemma UnescapePlain(c: char, t: string)
    requires c != '\\'
    ensures Unescape([c] + t) == [c] + Unescape(t)
  {
    assert ([c] + t)[1..] == t;
    if |[c] + t| >= 2 {
      assert ([c] + t)[..2][0] == c;
    }
  }


  /** A byte text without backslashes can be read back from its escaped
      form. */
  lemma {:induction false} EscapeRoundTrip(s: string)
    requires Bytes(s) && '\\' !in s
    ensures Unescape(Escape(s)) == s
  {
    if |s| > 0 {
      assert s[0] in s;
      assert forall x | x in s[1..] :: x in s;
      EscapeRoundTrip(s[1..]);
      UnescapeChar(s[0], Escape(s[1..]));
    }
  }

  /** A newline and the two characters backslash and `n` escape alike. */
  lemma EscapeNotInjective()
    ensures Escape("\n") == Escape("\\n")
  {
    EscapeNewline();
    EscapeBackslashN();
  }

  lemma EscapeNewline()
    ensures Escape("\n") == "\\n"
  {
    assert Escape("\n") == EscapeChar('\n') + Escape("");
  }

  lemma EscapeBackslashN()
    ensures Escape("\\n") == "\\n"
  {
    var t := "\\n";
    var b, n := t[0], t[1];
    assert t[1..] == [n] && [n][1..] == [];
    EscapeCharPrintable(b);
    EscapeCharPrintable(n);
    assert Escape([n]) == [n] + Escape([]);
    assert Escape(t) == [b] + Escape([n]);
    assert t == [b] + [n];
  }

  /** A printable character stands for itself. */
  lemma EscapeCharPrintable(c: char)
    requires Printable(c)
    ensures EscapeChar(c) == [c]
  {
    CodeSmall(c);
  }
}
