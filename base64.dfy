/** Base64 with the standard alphabet of section 4 of RFC 4648: every three
    octets become four characters, and a final group of one or two octets
    is padded with "==" or "=". The decoder accepts exactly the canonical
    encodings (the ones `Encode` produces). */
module Base64 {
  import opened Common

  type sextet = v: int | 0 <= v < 64

  /** The character for a 6-bit value: A-Z, a-z, 0-9, '+', '/'. */
  function CharOf(v: sextet): char
  {
    if v < 26 then ('A' as int + v) as char
    else if v < 52 then ('a' as int + (v - 26)) as char
    else if v < 62 then ('0' as int + (v - 52)) as char
    else if v == 62 then '+'
    else '/'
  }

  /** The 6-bit value of an alphabet character, `None` for any other character. */
  function ValueOf(c: char): (r: Option<sextet>)
    ensures r.Some? ==> CharOf(r.value) == c
  {
    if 'A' <= c <= 'Z' then Some(c as int - 'A' as int)
    else if 'a' <= c <= 'z' then Some(c as int - 'a' as int + 26)
    else if '0' <= c <= '9' then Some(c as int - '0' as int + 52)
    else if c == '+' then Some(62)
    else if c == '/' then Some(63)
    else None
  }

  lemma ValueOfCharOf(v: sextet)
    ensures ValueOf(CharOf(v)) == Some(v)
    ensures CharOf(v) != '=' && CharOf(v) != ' '
  {
  }

  /** A character that can appear in an encoding. */
  predicate IsEncodingChar(c: char)
  {
    c == '=' || ValueOf(c).Some?
  }

  /** The four 6-bit values that carry three octets, most significant first. */
  function Sextets(b0: byte, b1: byte, b2: byte): (sextet, sextet, sextet, sextet)
  {
    (b0 / 4, (b0 % 4) * 16 + b1 / 16, (b1 % 16) * 4 + b2 / 64, b2 % 64)
  }

  /** The three octets carried by four 6-bit values. */
  function Octets(v0: sextet, v1: sextet, v2: sextet, v3: sextet): (byte, byte, byte)
  {
    ((v0 as int) * 4 + (v1 as int) / 16, ((v1 as int) % 16) * 16 + (v2 as int) / 4, ((v2 as int) % 4) * 64 + v3 as int)
  }

  /** Division by a constant recovers quotient and remainder. */
  lemma DivMod(x: int, q: int, r: int, k: int)
    requires k == 4 || k == 16 || k == 64
    requires x == q * k + r && 0 <= r < k
    ensures x / k == q && x % k == r
  {
  }

  lemma OctetsOfSextets(b0: byte, b1: byte, b2: byte)
    ensures var (v0, v1, v2, v3) := Sextets(b0, b1, b2); Octets(v0, v1, v2, v3) == (b0, b1, b2)
  {
    var x0: int, x1: int, x2: int := b0, b1, b2;
    DivMod(x0, x0 / 4, x0 % 4, 4);
    DivMod(x1, x1 / 16, x1 % 16, 16);
    DivMod(x2, x2 / 64, x2 % 64, 64);
    var v1: int := (x0 % 4) * 16 + x1 / 16;
    DivMod(v1, x0 % 4, x1 / 16, 16);
    var v2: int := (x1 % 16) * 4 + x2 / 64;
    DivMod(v2, x1 % 16, x2 / 64, 4);
  }

  lemma SextetsOfOctets(v0: sextet, v1: sextet, v2: sextet, v3: sextet)
    ensures var (b0, b1, b2) := Octets(v0, v1, v2, v3); Sextets(b0, b1, b2) == (v0, v1, v2, v3)
  {
    var y0: int, y1: int, y2: int, y3: int := v0, v1, v2, v3;
    DivMod(y1, y1 / 16, y1 % 16, 16);
    DivMod(y2, y2 / 4, y2 % 4, 4);
    var b0: int := y0 * 4 + y1 / 16;
    var b1: int := (y1 % 16) * 16 + y2 / 4;
    var b2: int := (y2 % 4) * 64 + y3;
    DivMod(b0, y0, y1 / 16, 4);
    DivMod(b1, y1 % 16, y2 / 4, 16);
    DivMod(b2, y2 % 4, y3, 64);
  }

  /** Three octets as four characters. */
  function EncodeGroup(b0: byte, b1: byte, b2: byte): (q: string)
    ensures |q| == 4
  {
    var (v0, v1, v2, v3) := Sextets(b0, b1, b2);
    [CharOf(v0), CharOf(v1), CharOf(v2), CharOf(v3)]
  }

  /** The canonical encoding of an octet sequence. */
  function Encode(b: seq<byte>): (s: string)
    ensures |s| == 4 * ((|b| + 2) / 3)
    decreases |b|
  {
    if |b| == 0 then ""
    else if |b| == 1 then
      var (v0, v1, _, _) := Sextets(b[0], 0, 0);
      [CharOf(v0), CharOf(v1), '=', '=']
    else if |b| == 2 then
      var (v0, v1, v2, _) := Sextets(b[0], b[1], 0);
      [CharOf(v0), CharOf(v1), CharOf(v2), '=']
    else
      assert (|b| + 2) / 3 == (|b[3..]| + 2) / 3 + 1;
      EncodeGroup(b[0], b[1], b[2]) + Encode(b[3..])
  }

  /** An encoding consists of alphabet characters and padding only; in
      particular it contains no space. */
  lemma {:induction false} EncodeChars(b: seq<byte>)
    ensures forall i :: 0 <= i < |Encode(b)| ==> IsEncodingChar(Encode(b)[i])
    decreases |b|
  {
    if |b| == 1 {
      var (v0, v1, _, _) := Sextets(b[0], 0, 0);
      ValueOfCharOf(v0); ValueOfCharOf(v1);
    } else if |b| == 2 {
      var (v0, v1, v2, _) := Sextets(b[0], b[1], 0);
      ValueOfCharOf(v0); ValueOfCharOf(v1); ValueOfCharOf(v2);
    } else if |b| >= 3 {
      var (v0, v1, v2, v3) := Sextets(b[0], b[1], b[2]);
      ValueOfCharOf(v0); ValueOfCharOf(v1); ValueOfCharOf(v2); ValueOfCharOf(v3);
      var g, rest := EncodeGroup(b[0], b[1], b[2]), Encode(b[3..]);
      EncodeLong(b);
      EncodeChars(b[3..]);
      assert forall i :: 0 <= i < 4 ==> IsEncodingChar(g[i]);
      assert forall i :: 4 <= i < |Encode(b)| ==> Encode(b)[i] == rest[i - 4];
    }
  }

  /** Four characters as one to three octets. Only the last group may carry
      padding, and the bits the padding discards must be zero. */
  function DecodeGroup(q: string, last: bool): (r: Option<seq<byte>>)
    requires |q| == 4
    ensures r.Some? ==> 1 <= |r.value| <= 3 && (!last ==> |r.value| == 3)
  {
    match (ValueOf(q[0]), ValueOf(q[1]), ValueOf(q[2]), ValueOf(q[3]))
    case (Some(v0), Some(v1), Some(v2), Some(v3)) =>
      var (b0, b1, b2) := Octets(v0, v1, v2, v3);
      Some([b0, b1, b2])
    case (Some(v0), Some(v1), Some(v2), None) =>
      var (b0, b1, _) := Octets(v0, v1, v2, 0);
      if last && q[3] == '=' && v2 % 4 == 0 then Some([b0, b1]) else None
    case (Some(v0), Some(v1), None, None) =>
      var (b0, _, _) := Octets(v0, v1, 0, 0);
      if last && q[2] == '=' && q[3] == '=' && v1 % 16 == 0 then Some([b0]) else None
    case _ => None
  }

  /** Strict decoding: `None` for a length that is not a multiple of four,
      a character outside the alphabet, misplaced padding or non-zero pad bits. */
  function Decode(s: string): (r: Option<seq<byte>>)
    ensures r.Some? ==> |s| % 4 == 0
    ensures r.Some? ==> 3 * (|s| / 4) - 2 <= |r.value| <= 3 * (|s| / 4)
    decreases |s|
  {
    if |s| == 0 then Some([])
    else if |s| < 4 then None
    else
      DivMod(|s|, |s[4..]| / 4 + 1, |s[4..]| % 4, 4);
      match DecodeGroup(s[..4], |s| == 4)
      case None => None
      case Some(g) =>
        match Decode(s[4..])
        case None => None
        case Some(rest) => Some(g + rest)
  }

  lemma DecodeGroup1(b0: byte)
    ensures var (v0, v1, _, _) := Sextets(b0, 0, 0);
      DecodeGroup([CharOf(v0), CharOf(v1), '=', '='], true) == Some([b0])
  {
    var (v0, v1, _, _) := Sextets(b0, 0, 0);
    var q := [CharOf(v0), CharOf(v1), '=', '='];
    ValueOfCharOf(v0); ValueOfCharOf(v1);
    assert ValueOf(q[0]) == Some(v0) && ValueOf(q[1]) == Some(v1);
    assert ValueOf(q[2]) == None && ValueOf(q[3]) == None;
    OctetsOfSextets(b0, 0, 0);
  }

  lemma DecodeGroup2(b0: byte, b1: byte)
    ensures var (v0, v1, v2, _) := Sextets(b0, b1, 0);
      DecodeGroup([CharOf(v0), CharOf(v1), CharOf(v2), '='], true) == Some([b0, b1])
  {
    var (v0, v1, v2, _) := Sextets(b0, b1, 0);
    var q := [CharOf(v0), CharOf(v1), CharOf(v2), '='];
    ValueOfCharOf(v0); ValueOfCharOf(v1); ValueOfCharOf(v2);
    assert ValueOf(q[0]) == Some(v0) && ValueOf(q[1]) == Some(v1);
    assert ValueOf(q[2]) == Some(v2) && ValueOf(q[3]) == None;
    OctetsOfSextets(b0, b1, 0);
  }

  lemma DecodeGroup3(b0: byte, b1: byte, b2: byte, last: bool)
    ensures DecodeGroup(EncodeGroup(b0, b1, b2), last) == Some([b0, b1, b2])
  {
    var (v0, v1, v2, v3) := Sextets(b0, b1, b2);
    var q := EncodeGroup(b0, b1, b2);
    ValueOfCharOf(v0); ValueOfCharOf(v1); ValueOfCharOf(v2); ValueOfCharOf(v3);
    assert ValueOf(q[0]) == Some(v0) && ValueOf(q[1]) == Some(v1);
    assert ValueOf(q[2]) == Some(v2) && ValueOf(q[3]) == Some(v3);
    OctetsOfSextets(b0, b1, b2);
  }

  lemma Halves<T>(a: seq<T>, b: seq<T>)
    ensures (a + b)[..|a|] == a && (a + b)[|a|..] == b
  {
  }

  lemma Uncons3<T>(b: seq<T>)
    requires |b| >= 3
    ensures b == [b[0], b[1], b[2]] + b[3..]
  {
  }

  /** Decoding a string that starts with a decodable group. */
  lemma DecodeStep(s: string, g: seq<byte>)
    requires |s| >= 4 && DecodeGroup(s[..4], |s| == 4) == Some(g)
    ensures Decode(s) == match Decode(s[4..]) case None => None case Some(rest) => Some(g + rest)
  {
  }

  /** A single, final group decodes on its own. */
  lemma DecodeLastGroup(s: string, g: seq<byte>)
    requires |s| == 4 && DecodeGroup(s, true) == Some(g)
    ensures Decode(s) == Some(g)
  {
    assert s[..4] == s;
    assert Decode(s[4..]) == Some([]);
    assert g + [] == g;
  }

  lemma DecodeEncodeShort(b: seq<byte>)
    requires 1 <= |b| <= 2
    ensures Decode(Encode(b)) == Some(b)
  {
    if |b| == 1 {
      DecodeGroup1(b[0]);
      DecodeLastGroup(Encode(b), [b[0]]);
    } else {
      DecodeGroup2(b[0], b[1]);
      DecodeLastGroup(Encode(b), [b[0], b[1]]);
    }
    assert |b| == 1 ==> b == [b[0]];
    assert |b| == 2 ==> b == [b[0], b[1]];
  }

  lemma EncodeLong(b: seq<byte>)
    requires |b| >= 3
    ensures Encode(b) == EncodeGroup(b[0], b[1], b[2]) + Encode(b[3..])
  {
  }

  lemma DecodeEncodeLong(b: seq<byte>, s: string)
    requires |b| >= 3
    requires s == EncodeGroup(b[0], b[1], b[2]) + Encode(b[3..])
    requires Decode(Encode(b[3..])) == Some(b[3..])
    ensures Decode(s) == Some(b)
  {
    var g, rest := EncodeGroup(b[0], b[1], b[2]), Encode(b[3..]);
    Halves(g, rest);
    DecodeGroup3(b[0], b[1], b[2], |s| == 4);
    DecodeStep(s, [b[0], b[1], b[2]]);
    Uncons3(b);
  }

  /** Decoding undoes encoding. */
  lemma {:induction false} DecodeEncode(b: seq<byte>)
    ensures Decode(Encode(b)) == Some(b)
    decreases |b|
  {
    if 1 <= |b| <= 2 {
      DecodeEncodeShort(b);
    } else if |b| >= 3 {
      DecodeEncode(b[3..]);
      EncodeLong(b);
      DecodeEncodeLong(b, Encode(b));
    }
  }

  /** A decodable group is the encoding of what it decodes to. */
  lemma EncodeDecodeGroup(q: string, last: bool)
    requires |q| == 4 && DecodeGroup(q, last).Some?
    ensures var g := DecodeGroup(q, last).value;
      1 <= |g| <= 3 && (|g| < 3 ==> last) &&
      if |g| == 3 then EncodeGroup(g[0], g[1], g[2]) == q else Encode(g) == q
  {
    var g := DecodeGroup(q, last).value;
    match (ValueOf(q[0]), ValueOf(q[1]), ValueOf(q[2]), ValueOf(q[3]))
    case (Some(v0), Some(v1), Some(v2), Some(v3)) =>
      SextetsOfOctets(v0, v1, v2, v3);
    case (Some(v0), Some(v1), Some(v2), None) =>
      SextetsOfOctets(v0, v1, v2, 0);
      var (b0, b1, _) := Octets(v0, v1, v2, 0);
      assert Sextets(b0, b1, 0) == (v0, v1, v2, 0);
    case (Some(v0), Some(v1), None, None) =>
      SextetsOfOctets(v0, v1, 0, 0);
      var (b0, _, _) := Octets(v0, v1, 0, 0);
      assert Sextets(b0, 0, 0) == (v0, v1, 0, 0);
  }

  /** Only canonical encodings decode. */
  lemma {:induction false} EncodeDecode(s: string)
    requires Decode(s).Some?
    ensures Encode(Decode(s).value) == s
    decreases |s|
  {
    if |s| > 0 {
      var g := DecodeGroup(s[..4], |s| == 4).value;
      EncodeDecodeGroup(s[..4], |s| == 4);
      var rest := Decode(s[4..]).value;
      EncodeDecode(s[4..]);
      var b := g + rest;
      if |g| < 3 {
        assert s == s[..4];
        assert b == g;
      } else {
        assert b[..3] == g && b[3..] == rest;
        assert s == s[..4] + s[4..];
      }
    }
  }

  /** The decoder accepts a string exactly when it is an encoding. */
  lemma DecodeIffEncoding(s: string, b: seq<byte>)
    ensures Decode(s) == Some(b) <==> s == Encode(b)
  {
    if Decode(s) == Some(b) { EncodeDecode(s); }
    if s == Encode(b) { DecodeEncode(b); }
  }
}
