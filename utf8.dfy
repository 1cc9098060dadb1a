/** UTF-8 as `bytes.decode('utf-8')` in its default strict mode reads it:
    one to four octets per Unicode scalar value, and overlong forms,
    surrogates, values above U+10FFFF, stray or missing continuation octets
    are all errors. */
module Utf8 {
  import opened Common

  /** An octet of the form 10xxxxxx. */
  predicate IsContinuation(b: byte)
  {
    0x80 <= b < 0xC0
  }

  /** The shortest encoding of one scalar value: the value's bits, six at a
      time, behind a lead octet that announces the length. */
  function EncodeChar(c: char): (b: seq<byte>)
    ensures 1 <= |b| <= 4
  {
    var n := c as int;
    if n < 0x80 then [n]
    else if n < 0x800 then [0xC0 + n / 64, 0x80 + n % 64]
    else if n < 0x10000 then [0xE0 + n / 64 / 64, 0x80 + n / 64 % 64, 0x80 + n % 64]
    else [0xF0 + n / 64 / 64 / 64, 0x80 + n / 64 / 64 % 64, 0x80 + n / 64 % 64, 0x80 + n % 64]
  }

  /** `s.encode('utf-8')`. */
  function Encode(s: string): (b: seq<byte>)
    ensures |s| <= |b| <= 4 * |s|
  {
    if s == [] then [] else EncodeChar(s[0]) + Encode(s[1..])
  }

  predicate IsScalar(n: int)
  {
    0 <= n < 0xD800 || 0xE000 <= n < 0x110000
  }

  /** The scalar value encoded at the start of `b` and its length in octets,
      or `None` when `b` does not start with a well-formed encoding. */
  function DecodeChar(b: seq<byte>): (r: Option<(char, nat)>)
    requires |b| > 0
    ensures r.Some? ==> 1 <= r.value.1 <= |b| && r.value.1 <= 4
  {
    var b0: int := b[0];
    if b0 < 0x80 then Some((b0 as char, 1))
    else if 0xC0 <= b0 < 0xE0 then
      if |b| >= 2 && IsContinuation(b[1]) then
        var n := (b0 - 0xC0) * 64 + (b[1] as int - 0x80);
        if n >= 0x80 then Some((n as char, 2)) else None
      else None
    else if 0xE0 <= b0 < 0xF0 then
      if |b| >= 3 && IsContinuation(b[1]) && IsContinuation(b[2]) then
        var n := ((b0 - 0xE0) * 64 + (b[1] as int - 0x80)) * 64 + (b[2] as int - 0x80);
        if n >= 0x800 && IsScalar(n) then Some((n as char, 3)) else None
      else None
    else if 0xF0 <= b0 < 0xF8 then
      if |b| >= 4 && IsContinuation(b[1]) && IsContinuation(b[2]) && IsContinuation(b[3]) then
        var n := (((b0 - 0xF0) * 64 + (b[1] as int - 0x80)) * 64 + (b[2] as int - 0x80)) * 64 + (b[3] as int - 0x80);
        if 0x10000 <= n < 0x110000 then Some((n as char, 4)) else None
      else None
    else None
  }

  /** `b.decode('utf-8')`: the decoded text, or `None` where Python raises
      `UnicodeDecodeError`. */
  function Decode(b: seq<byte>): (r: Option<string>)
    ensures r.Some? ==> |r.value| <= |b| <= 4 * |r.value|
    decreases |b|
  {
    if |b| == 0 then Some("")
    else
      match DecodeChar(b)
      case None => None
      case Some((c, k)) =>
        match Decode(b[k..])
        case None => None
        case Some(rest) => Some([c] + rest)
  }

  /** Each scalar value's encoding is read back as that value. */
  lemma DecodeEncodeChar(c: char, rest: seq<byte>)
    ensures DecodeChar(EncodeChar(c) + rest) == Some((c, |EncodeChar(c)|))
  {
    var n := c as int;
    if n < 0x80 {
    } else if n < 0x800 {
      DecodeEncodeChar2(c, rest);
    } else if n < 0x10000 {
      DecodeEncodeChar3(c, rest);
    } else {
      DecodeEncodeChar4(c, rest);
    }
  }

  lemma DecodeEncodeChar2(c: char, rest: seq<byte>)
    requires 0x80 <= c as int < 0x800
    ensures DecodeChar(EncodeChar(c) + rest) == Some((c, 2))
  {
    var n := c as int;
    assert n == (n / 64) * 64 + n % 64;
  }

  lemma DecodeEncodeChar3(c: char, rest: seq<byte>)
    requires 0x800 <= c as int < 0x10000
    ensures DecodeChar(EncodeChar(c) + rest) == Some((c, 3))
  {
    var n := c as int;
    var m := n / 64;
    assert n == m * 64 + n % 64;
    assert m == (m / 64) * 64 + m % 64;
    var b := EncodeChar(c) + rest;
    assert b[0] == 0xE0 + m / 64 && b[1] == 0x80 + m % 64 && b[2] == 0x80 + n % 64;
  }

  lemma DecodeEncodeChar4(c: char, rest: seq<byte>)
    requires 0x10000 <= c as int
    ensures DecodeChar(EncodeChar(c) + rest) == Some((c, 4))
  {
    var n := c as int;
    var m := n / 64;
    var k := m / 64;
    assert n == m * 64 + n % 64;
    assert m == k * 64 + m % 64;
    assert k == (k / 64) * 64 + k % 64;
    var b := EncodeChar(c) + rest;
    assert b[0] == 0xF0 + k / 64 && b[1] == 0x80 + k % 64;
    assert b[2] == 0x80 + m % 64 && b[3] == 0x80 + n % 64;
  }

  /** Decoding undoes encoding, so decoding the UTF-8 octets of any text
      raises no error. */
  lemma {:induction false} DecodeEncode(s: string)
    ensures Decode(Encode(s)) == Some(s)
  {
    if s != [] {
      var e := EncodeChar(s[0]);
      var b := Encode(s);
      assert b == e + Encode(s[1..]);
      DecodeEncodeChar(s[0], Encode(s[1..]));
      assert b[|e|..] == Encode(s[1..]);
      DecodeEncode(s[1..]);
      assert s == [s[0]] + s[1..];
    }
  }

  /** A well-formed encoding at the start of `b` is the encoding of the value
      it decodes to. */
  lemma EncodeDecodeChar(b: seq<byte>)
    requires |b| > 0 && DecodeChar(b).Some?
    ensures var (c, k) := DecodeChar(b).value; EncodeChar(c) == b[..k]
  {
    var (c, k) := DecodeChar(b).value;
    if k == 2 {
      EncodeDecodeChar2(b);
    } else if k == 3 {
      EncodeDecodeChar3(b);
    } else if k == 4 {
      EncodeDecodeChar4(b);
    }
  }

  lemma EncodeDecodeChar2(b: seq<byte>)
    requires |b| > 0 && DecodeChar(b).Some? && DecodeChar(b).value.1 == 2
    ensures EncodeChar(DecodeChar(b).value.0) == b[..2]
  {
    var n := DecodeChar(b).value.0 as int;
    var b0: int, b1: int := b[0], b[1];
    assert n == (b0 - 0xC0) * 64 + (b1 - 0x80);
    assert n / 64 == b0 - 0xC0 && n % 64 == b1 - 0x80;
  }

  lemma EncodeDecodeChar3(b: seq<byte>)
    requires |b| > 0 && DecodeChar(b).Some? && DecodeChar(b).value.1 == 3
    ensures EncodeChar(DecodeChar(b).value.0) == b[..3]
  {
    var n := DecodeChar(b).value.0 as int;
    var b0: int, b1: int, b2: int := b[0], b[1], b[2];
    var m: int := (b0 - 0xE0) * 64 + (b1 - 0x80);
    assert n == m * 64 + (b2 - 0x80);
    assert n / 64 == m && n % 64 == b2 - 0x80;
    assert m / 64 == b0 - 0xE0 && m % 64 == b1 - 0x80;
  }

  lemma EncodeDecodeChar4(b: seq<byte>)
    requires |b| > 0 && DecodeChar(b).Some? && DecodeChar(b).value.1 == 4
    ensures EncodeChar(DecodeChar(b).value.0) == b[..4]
  {
    var n := DecodeChar(b).value.0 as int;
    var b0: int, b1: int, b2: int, b3: int := b[0], b[1], b[2], b[3];
    var j: int := (b0 - 0xF0) * 64 + (b1 - 0x80);
    var m: int := j * 64 + (b2 - 0x80);
    assert n == m * 64 + (b3 - 0x80);
    assert n / 64 == m && n % 64 == b3 - 0x80;
    assert m / 64 == j && m % 64 == b2 - 0x80;
    assert j / 64 == b0 - 0xF0 && j % 64 == b1 - 0x80;
  }

  /** Only well-formed UTF-8 decodes, and it decodes to the one text whose
      encoding it is. */
  lemma {:induction false} EncodeDecode(b: seq<byte>)
    requires Decode(b).Some?
    ensures Encode(Decode(b).value) == b
    decreases |b|
  {
    if |b| > 0 {
      var (c, k) := DecodeChar(b).value;
      EncodeDecodeChar(b);
      EncodeDecode(b[k..]);
      EncodeDecodeStep(b, c, k, Decode(b[k..]).value);
    }
  }

  lemma EncodeDecodeStep(b: seq<byte>, c: char, k: nat, rest: string)
    requires 0 < k <= |b| && Decode(b) == Some([c] + rest)
    requires EncodeChar(c) == b[..k] && Encode(rest) == b[k..]
    ensures Encode(Decode(b).value) == b
  {
    var s := [c] + rest;
    assert s[0] == c && s[1..] == rest;
    assert b == b[..k] + b[k..];
  }

  /** The decoder accepts exactly the encodings of texts. */
  lemma DecodeIffEncoding(b: seq<byte>, s: string)
    ensures Decode(b) == Some(s) <==> b == Encode(s)
  {
    if Decode(b) == Some(s) { EncodeDecode(b); }
    if b == Encode(s) { DecodeEncode(s); }
  }
}
