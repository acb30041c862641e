/** `su::encodeBase64url` and `su::decodeBase64url`: the URL- and
    filename-safe alphabet of section 5 of RFC 4648, with `=` padding on
    output. Bytes are `bv8`; the 6-bit values and the bit operations of the
    C++ code are computed on `bv8` as well, which is exact because every
    intermediate value the code forms either fits in 8 bits or is cast back
    to `unsigned char`. */
module Base64Url {
  import opened Ints

  /** A 6-bit value. */
  predicate Sextet(v: bv8) {
    v < 64
  }

  /** The character for a 6-bit value: `A`-`Z`, `a`-`z`, `0`-`9`, `-`, `_`. */
  function B64Char(v: bv8): (c: char)
    requires Sextet(v)
    ensures InAlphabet(c)
  {
    var n := v as int;
    if n < 26 then ('A' as int + n) as char
    else if n < 52 then ('a' as int + n - 26) as char
    else if n < 62 then ('0' as int + n - 52) as char
    else if n == 62 then '-'
    else '_'
  }

  predicate InAlphabet(c: char) {
    'A' <= c <= 'Z' || 'a' <= c <= 'z' || '0' <= c <= '9' || c == '-' || c == '_'
  }

  /** The decoder's 256-entry table, indexed by the byte of c: the
      alphabet maps back to its values, `/` also reads as 63, and every
      other byte (`=` and `+` included) reads as 0. */
  function Table(c: char): (v: bv8)
    ensures Sextet(v)
  {
    var b := Code(c);
    if 'A' as int <= b <= 'Z' as int then (b - 'A' as int) as bv8
    else if 'a' as int <= b <= 'z' as int then (b - 'a' as int + 26) as bv8
    else if '0' as int <= b <= '9' as int then (b - '0' as int + 52) as bv8
    else if b == '-' as int then 62
    else if b == '/' as int || b == '_' as int then 63
    else 0
  }

  /** The table inverts the alphabet. */
  lemma TableInverse(v: bv8)
    requires Sextet(v)
    ensures Table(B64Char(v)) == v
  {
    CodeSmall(B64Char(v));
  }

  // ---------------------------------------------------------------------
  // Encoding

  /** The number of `=` the encoder appends: 2 for a length of 1 modulo 3,
      1 for 2, 0 for 0. */
  function Pad(len: nat): (p: nat)
    ensures p < 3 && (len + p) % 3 == 0
  {
    (3 - len % 3) % 3
  }

  /** The encoder computes `pad` with bit operations on `len % 3`; they
      agree with `Pad`. */
  lemma PadBits(len: nat)
    ensures var m := (len % 3) as bv8;
      (((m & 1) << 1) + ((m & 2) >> 1)) as nat == Pad(len)
  {
    var m := len % 3;
    assert m == 0 || m == 1 || m == 2;
  }

  /** The four 6-bit values of three bytes, as the encoder extracts them. */
  function S0(b0: bv8): bv8 { b0 >> 2 }
  function S1(b0: bv8, b1: bv8): bv8 { ((0x3 & b0) << 4) + (b1 >> 4) }
  function S2(b1: bv8, b2: bv8): bv8 { ((0x0f & b1) << 2) + (b2 >> 6) }
  function S3(b2: bv8): bv8 { 0x3f & b2 }

  /** The three bytes four 6-bit values make, as the decoder combines them. */
  function Combine(t0: bv8, t1: bv8, t2: bv8, t3: bv8): (r: seq<bv8>)
    ensures |r| == 3
  {
    [(t0 << 2) | (t1 >> 4), (t1 << 4) | (t2 >> 2), (t2 << 6) | t3]
  }

  /** Splitting bytes into sextets and combining them again restores the
      bytes; a missing third or second byte comes back as 0. */
  lemma CombineSplit(b0: bv8, b1: bv8, b2: bv8)
    ensures S0(b0) < 64 && S1(b0, b1) < 64 && S2(b1, b2) < 64 && S3(b2) < 64
    ensures Combine(S0(b0), S1(b0, b1), S2(b1, b2), S3(b2)) == [b0, b1, b2]
    ensures Combine(S0(b0), S1(b0, 0), 0, 0) == [b0, 0, 0]
    ensures Combine(S0(b0), S1(b0, b1), S2(b1, 0), 0) == [b0, b1, 0]
  {
    FirstByte(b0, b1);
    FirstByte(b0, 0);
    SecondByte(b0, b1, b2);
    SecondByte(b0, b1, 0);
    SecondByte(b0, 0, 0);
    ThirdByte(b1, b2);
    ThirdByte(b1, 0);
    ThirdByte(0, 0);
  }

  lemma FirstByte(b0: bv8, b1: bv8)
    ensures S0(b0) < 64 && S1(b0, b1) < 64
    ensures (S0(b0) << 2) | (S1(b0, b1) >> 4) == b0
  {
  }

  lemma SecondByte(b0: bv8, b1: bv8, b2: bv8)
    ensures S2(b1, b2) < 64
    ensures (S1(b0, b1) << 4) | (S2(b1, b2) >> 2) == b1
  {
  }

  lemma ThirdByte(b1: bv8, b2: bv8)
    ensures S3(b2) < 64
    ensures (S2(b1, b2) << 6) | S3(b2) == b2
  {
  }

  /** Three bytes as four characters. */
  function EncodeGroup(b0: bv8, b1: bv8, b2: bv8): (r: string)
    ensures |r| == 4
  {
    CombineSplit(b0, b1, b2);
    [B64Char(S0(b0)), B64Char(S1(b0, b1)), B64Char(S2(b1, b2)), B64Char(S3(b2))]
  }

  /** The padded tail for the last one or two bytes. */
  function EncodeTail(rest: seq<bv8>): (r: string)
    requires |rest| < 3
    ensures |r| == (if |rest| == 0 then 0 else 4)
  {
    if |rest| == 0 then ""
    else if |rest| == 1 then
      CombineSplit(rest[0], 0, 0);
      [B64Char(S0(rest[0])), B64Char(S1(rest[0], 0)), '=', '=']
    else
      CombineSplit(rest[0], rest[1], 0);
      [B64Char(S0(rest[0])), B64Char(S1(rest[0], rest[1])), B64Char(S2(rest[1], 0)), '=']
  }

  /** Base64url encoding of any number of bytes: four characters per three
      bytes, the last group padded with `=` to four characters. */
  function Encode(data: seq<bv8>): (r: string)
    ensures 3 * |r| == 4 * (|data| + Pad(|data|))
    ensures forall i | 0 <= i < |r| :: InAlphabet(r[i]) || r[i] == '='
  {
    if |data| >= 3 then
      var g, t := EncodeGroup(data[0], data[1], data[2]), Encode(data[3..]);
      AlphabetGroup(data[0], data[1], data[2]);
      assert forall i | 4 <= i < |g + t| :: (g + t)[i] == t[i - 4];
      g + t
    else
      AlphabetTail(data);
      EncodeTail(data)
  }

  lemma AlphabetGroup(b0: bv8, b1: bv8, b2: bv8)
    ensures forall i | 0 <= i < 4 :: InAlphabet(EncodeGroup(b0, b1, b2)[i])
  {
    CombineSplit(b0, b1, b2);
  }

  lemma AlphabetTail(rest: seq<bv8>)
    requires |rest| < 3
    ensures forall i | 0 <= i < |EncodeTail(rest)| ::
              InAlphabet(EncodeTail(rest)[i]) || EncodeTail(rest)[i] == '='
  {
    if |rest| == 1 {
      CombineSplit(rest[0], 0, 0);
    } else if |rest| == 2 {
      CombineSplit(rest[0], rest[1], 0);
    }
  }

  /** Encoding works group by group: a prefix of whole groups encodes on
      its own. */
  lemma {:induction false} EncodeAppend(a: seq<bv8>, b: seq<bv8>)
    requires |a| % 3 == 0
    ensures Encode(a + b) == Encode(a) + Encode(b)
    decreases |a|
  {
    if |a| == 0 {
      assert a + b == b;
    } else {
      assert (a + b)[3..] == a[3..] + b;
      assert (a + b)[..3] == a[..3];
      EncodeAppend(a[3..], b);
    }
  }

  /** The loop of `encodeBase64url`, with its guard written so that it
      cannot wrap (see `EncodeLoopGuard` for the guard as written): one
      group of four characters per three bytes, then the padded tail. */
  method EncodeLoop(data: seq<bv8>) returns (res: string)
    ensures res == Encode(data)
  {
    var len := |data|;
    res := "";
    var byteNo := 0;
    while byteNo + 3 <= len
      invariant byteNo <= len && byteNo % 3 == 0
      invariant res == Encode(data[..byteNo])
      decreases len - byteNo
    {
      ghost var res0, byteNo0 := res, byteNo;
      res := res + EncodeGroup(data[byteNo], data[byteNo + 1], data[byteNo + 2]);
      byteNo := byteNo + 3;
      EncodeRound(data, byteNo0, res0, byteNo, res);
    }
    EncodeFinish(data, byteNo, res);
    res := res + EncodeTail(data[byteNo..]);
  }

  /** One round of the encoder's loop keeps `res` the encoding of the bytes
      consumed. */
  lemma EncodeRound(data: seq<bv8>, byteNo: nat, res: string, byteNo': nat, res': string)
    requires byteNo + 3 <= |data| && byteNo % 3 == 0 && res == Encode(data[..byteNo])
    requires byteNo' == byteNo + 3
    requires res' == res + EncodeGroup(data[byteNo], data[byteNo + 1], data[byteNo + 2])
    ensures byteNo' <= |data| && byteNo' % 3 == 0 && res' == Encode(data[..byteNo'])
  {
    var group := data[byteNo..byteNo + 3];
    EncodeAppend(data[..byteNo], group);
    assert data[..byteNo + 3] == data[..byteNo] + group;
    assert Encode(group) == EncodeGroup(group[0], group[1], group[2]) + Encode(group[3..]);
    assert group[3..] == [];
  }

  /** After the loop the padded tail completes the encoding. */
  lemma EncodeFinish(data: seq<bv8>, byteNo: nat, res: string)
    requires byteNo <= |data| && byteNo % 3 == 0 && !(byteNo + 3 <= |data|)
    requires res == Encode(data[..byteNo])
    ensures res + EncodeTail(data[byteNo..]) == Encode(data)
  {
    EncodeAppend(data[..byteNo], data[byteNo..]);
    assert data == data[..byteNo] + data[byteNo..];
  }

  /** The encoder's loop guard as written, `byteNo <= len - 3` on the
      unsigned `size_t`: for a length below 3 the subtraction wraps. */
  function EncodeLoopGuard(byteNo: nat, len: nat): (g: bool)
    requires len < TWO_64
    ensures 3 <= len ==> (g <==> byteNo + 3 <= len)
  {
    byteNo <= (len - 3) % TWO_64
  }

  /** For 0, 1 or 2 input bytes the guard as written admits the first
      iteration, which reads `bin[byteNo + 2]` beyond the data. */
  lemma EncodeShortInputOverreads(len: nat)
    requires len < 3
    ensures EncodeLoopGuard(0, len) && 0 + 2 >= len
  {
  }

  // ---------------------------------------------------------------------
  // Decoding

  /** Four characters as three bytes. */
  function DecodeQuad(c0: char, c1: char, c2: char, c3: char): (r: seq<bv8>)
    ensures |r| == 3
  {
    Combine(Table(c0), Table(c1), Table(c2), Table(c3))
  }

  /** The last one to four characters, of which r give r - 1 bytes. */
  function DecodeTail(s: string): (r: seq<bv8>)
    requires 1 <= |s| <= 4
    ensures |r| == |s| - 1
    ensures |s| == 4 ==> r == DecodeQuad(s[0], s[1], s[2], s[3])
  {
    (if |s| > 1 then [(Table(s[0]) << 2) | (Table(s[1]) >> 4)] else []) +
    (if |s| > 2 then [(Table(s[1]) << 4) | (Table(s[2]) >> 2)] else []) +
    (if |s| > 3 then [(Table(s[2]) << 6) | Table(s[3])] else [])
  }

  /** The main loop, taking groups while more than four characters remain. */
  function DecodeFrom(s: string): (r: seq<bv8>)
    requires |s| >= 1
    ensures |r| == 3 * |s| / 4
  {
    if |s| > 4 then DecodeQuad(s[0], s[1], s[2], s[3]) + DecodeFrom(s[4..])
    else DecodeTail(s)
  }

  /** `decodeBase64url(encoded)`: m characters give floor(3m/4) bytes;
      `=` reads as the value 0 and is not stripped. */
  function Decode(s: string): (r: seq<bv8>)
    ensures |r| == 3 * |s| / 4
  {
    if |s| == 0 then [] else DecodeFrom(s)
  }

  function Zeros(n: nat): (r: seq<bv8>)
    ensures |r| == n && forall i | 0 <= i < n :: r[i] == 0
  {
    if n == 0 then [] else [0] + Zeros(n - 1)
  }

  /** More than four characters: the first group, then the rest. */
  lemma DecodeGroupThen(g: string, t: string)
    requires |g| == 4 && |t| > 0
    ensures Decode(g + t) == DecodeQuad(g[0], g[1], g[2], g[3]) + Decode(t)
  {
    assert (g + t)[4..] == t;
    assert (g + t)[0] == g[0] && (g + t)[1] == g[1] && (g + t)[2] == g[2] && (g + t)[3] == g[3];
  }

  /** Decoding four characters of the alphabet (or `=`) looks up each. */
  lemma DecodeChars(v0: bv8, v1: bv8, v2: bv8, v3: bv8, c2: char, c3: char)
    requires v0 < 64 && v1 < 64 && v2 < 64 && v3 < 64
    requires Table(c2) == v2 && Table(c3) == v3
    ensures Decode([B64Char(v0), B64Char(v1), c2, c3]) == Combine(v0, v1, v2, v3)
  {
    TableInverse(v0);
    TableInverse(v1);
  }

  /** A group decodes back to its three bytes. */
  lemma GroupInverse(b0: bv8, b1: bv8, b2: bv8)
    ensures var g := EncodeGroup(b0, b1, b2);
      DecodeQuad(g[0], g[1], g[2], g[3]) == [b0, b1, b2]
  {
    CombineSplit(b0, b1, b2);
    TableInverse(S0(b0));
    TableInverse(S1(b0, b1));
    TableInverse(S2(b1, b2));
    TableInverse(S3(b2));
  }

  lemma DecodeEncodeOne(b: bv8)
    ensures Decode(EncodeTail([b])) == [b, 0, 0]
  {
    CombineSplit(b, 0, 0);
    DecodeChars(S0(b), S1(b, 0), 0, 0, '=', '=');
  }

  lemma DecodeEncodeTwo(b0: bv8, b1: bv8)
    ensures Decode(EncodeTail([b0, b1])) == [b0, b1, 0]
  {
    CombineSplit(b0, b1, 0);
    TableInverse(S2(b1, 0));
    DecodeChars(S0(b0), S1(b0, b1), S2(b1, 0), 0, B64Char(S2(b1, 0)), '=');
  }

  lemma SplitHead<T>(data: seq<T>)
    requires |data| >= 3
    ensures data == [data[0], data[1], data[2]] + data[3..]
  {
  }

  /** The last group of a length that is a multiple of 3. */
  lemma DecodeEncodeLast(data: seq<bv8>)
    requires |data| == 3
    ensures Decode(Encode(data)) == data + Zeros(Pad(|data|))
  {
    GroupInverse(data[0], data[1], data[2]);
    assert Encode(data[3..]) == "";
    assert Encode(data) == EncodeGroup(data[0], data[1], data[2]) + "";
    SplitHead(data);
  }

  /** One step of the round trip: a leading group, then the rest. */
  lemma DecodeEncodeStep(data: seq<bv8>)
    requires |data| > 3
    requires Decode(Encode(data[3..])) == data[3..] + Zeros(Pad(|data| - 3))
    ensures Decode(Encode(data)) == data + Zeros(Pad(|data|))
  {
    var g, t := EncodeGroup(data[0], data[1], data[2]), Encode(data[3..]);
    GroupInverse(data[0], data[1], data[2]);
    assert Encode(data) == g + t;
    DecodeGroupThen(g, t);
    SplitHead(data);
    assert Pad(|data|) == Pad(|data| - 3);
    AppendAssoc([data[0], data[1], data[2]], data[3..], Zeros(Pad(|data|)));
  }

  /** Decoding an encoding gives the data back, followed by one zero byte
      per `=` of padding, because the decoder does not strip padding. */
  lemma {:induction false} DecodeEncode(data: seq<bv8>)
    ensures Decode(Encode(data)) == data + Zeros(Pad(|data|))
    decreases |data|
  {
    if |data| > 3 {
      DecodeEncode(data[3..]);
      DecodeEncodeStep(data);
    } else if |data| == 3 {
      DecodeEncodeLast(data);
    } else if |data| == 1 {
      DecodeEncodeOne(data[0]);
      assert data == [data[0]];
    } else if |data| == 2 {
      DecodeEncodeTwo(data[0], data[1]);
      assert data == [data[0], data[1]];
    }
  }

  /** For a length that is a multiple of 3 the round trip is exact. */
  lemma DecodeEncodeWhole(data: seq<bv8>)
    requires |data| % 3 == 0
    ensures 3 * |Encode(data)| == 4 * |data|
    ensures Decode(Encode(data)) == data
  {
    var p := Pad(|data|);
    assert p == 0 by {
      assert |data| % 3 == 0;
    }
    assert Decode(Encode(data)) == data + Zeros(p) by {
      DecodeEncode(data);
    }
    assert Zeros(p) == [];
    assert data + [] == data;
  }
}
