/** Python's strict UTF-8 codec: `bytes.decode()` raises `UnicodeDecodeError` on
    anything but a well-formed sequence (no overlong forms, no surrogates, nothing
    above U+10FFFF), and `str.encode()` produces the shortest form. */
module Utf8 {
  import opened Base

  /** Whether a byte can continue a multi-byte sequence. */
  predicate IsTail(b: byte) {
    0x80 <= b < 0xC0
  }

  function EncodeChar(c: char): (bs: seq<byte>)
    ensures 1 <= |bs| <= 4
  {
    var n := c as int;
    if n < 0x80 then [n as byte]
    else if n < 0x800 then
      [(0xC0 + n / 0x40) as byte, (0x80 + n % 0x40) as byte]
    else if n < 0x1_0000 then
      [(0xE0 + n / 0x1000) as byte, (0x80 + n / 0x40 % 0x40) as byte, (0x80 + n % 0x40) as byte]
    else
      [(0xF0 + n / 0x4_0000) as byte, (0x80 + n / 0x1000 % 0x40) as byte,
       (0x80 + n / 0x40 % 0x40) as byte, (0x80 + n % 0x40) as byte]
  }

  /** `str.encode()`. */
  function Encode(s: string): seq<byte> {
    if s == [] then [] else EncodeChar(s[0]) + Encode(s[1..])
  }

  /** The character a well-formed sequence at the front of `bs` stands for, and the
      number of bytes it takes; `None` when the front is ill-formed. */
  function DecodeFirst(bs: seq<byte>): (r: Option<(char, nat)>)
    requires bs != []
    ensures r.Some? ==> 1 <= r.value.1 <= |bs| && r.value.1 <= 4
  {
    var b0 := bs[0] as int;
    if b0 < 0x80 then Some((b0 as char, 1))
    else if 0xC2 <= b0 < 0xE0 then
      if |bs| >= 2 && IsTail(bs[1]) then
        Some((((b0 - 0xC0) * 0x40 + (bs[1] as int - 0x80)) as char, 2))
      else None
    else if 0xE0 <= b0 < 0xF0 then
      if |bs| >= 3 && IsTail(bs[1]) && IsTail(bs[2]) then
        var n := (b0 - 0xE0) * 0x1000 + (bs[1] as int - 0x80) * 0x40 + (bs[2] as int - 0x80);
        if n < 0x800 || 0xD800 <= n < 0xE000 then None else Some((n as char, 3))
      else None
    else if 0xF0 <= b0 < 0xF5 then
      if |bs| >= 4 && IsTail(bs[1]) && IsTail(bs[2]) && IsTail(bs[3]) then
        var n := (b0 - 0xF0) * 0x4_0000 + (bs[1] as int - 0x80) * 0x1000
                 + (bs[2] as int - 0x80) * 0x40 + (bs[3] as int - 0x80);
        if n < 0x1_0000 || 0x11_0000 <= n then None else Some((n as char, 4))
      else None
    else None
  }

  /** `bytes.decode()`: `None` where Python raises `UnicodeDecodeError`. */
  function Decode(bs: seq<byte>): (r: Option<string>)
    decreases |bs|
  {
    if bs == [] then Some([])
    else match DecodeFirst(bs)
      case None => None
      case Some((c, k)) =>
        match Decode(bs[k..])
        case None => None
        case Some(s) => Some([c] + s)
  }

  lemma DivMod(n: int, d: int)
    requires 0 <= n && 0 < d
    ensures n == n / d * d + n % d && 0 <= n % d < d
  {
  }

  lemma NestedDiv(n: int)
    requires 0 <= n
    ensures n / 0x40 / 0x40 == n / 0x1000
    ensures n / 0x1000 / 0x40 == n / 0x4_0000
  {
  }

  /** Decoding the encoding of a character gives it back and consumes exactly it. */
  lemma DecodeFirstOfEncoding(c: char, rest: seq<byte>)
    ensures DecodeFirst(EncodeChar(c) + rest) == Some((c, |EncodeChar(c)|))
  {
    var n := c as int;
    var bs := EncodeChar(c) + rest;
    DivMod(n, 0x40);
    DivMod(n / 0x40, 0x40);
    DivMod(n / 0x1000, 0x40);
    NestedDiv(n);
    if n < 0x80 {
    } else if n < 0x800 {
      assert bs[0] as int == 0xC0 + n / 0x40 && bs[1] as int == 0x80 + n % 0x40;
    } else if n < 0x1_0000 {
      assert bs[0] as int == 0xE0 + n / 0x1000;
      assert bs[1] as int == 0x80 + n / 0x40 % 0x40;
      assert bs[2] as int == 0x80 + n % 0x40;
      assert (n / 0x1000) * 0x1000 + (n / 0x40 % 0x40) * 0x40 + n % 0x40 == n;
    } else {
      assert bs[0] as int == 0xF0 + n / 0x4_0000;
      assert bs[1] as int == 0x80 + n / 0x1000 % 0x40;
      assert bs[2] as int == 0x80 + n / 0x40 % 0x40;
      assert bs[3] as int == 0x80 + n % 0x40;
      assert (n / 0x4_0000) * 0x4_0000 + (n / 0x1000 % 0x40) * 0x1000
             + (n / 0x40 % 0x40) * 0x40 + n % 0x40 == n;
    }
  }

  /** What `DecodeFirst` accepts is exactly the encoding of the character it returns. */
  lemma DecodeFirstIsEncoding(bs: seq<byte>)
    requires bs != [] && DecodeFirst(bs).Some?
    ensures EncodeChar(DecodeFirst(bs).value.0) == bs[..DecodeFirst(bs).value.1]
  {
    var b0 := bs[0] as int;
    if 0xC2 <= b0 < 0xE0 {
      TwoBytesAreEncoding(bs);
    } else if 0xE0 <= b0 < 0xF0 {
      ThreeBytesAreEncoding(bs);
    } else if 0xF0 <= b0 < 0xF5 {
      FourBytesAreEncoding(bs);
    }
  }

  lemma TwoBytesAreEncoding(bs: seq<byte>)
    requires bs != [] && 0xC2 <= bs[0] < 0xE0 && DecodeFirst(bs).Some?
    ensures EncodeChar(DecodeFirst(bs).value.0) == bs[..2]
  {
    var b0 := bs[0] as int;
    var n := DecodeFirst(bs).value.0 as int;
    var t1 := bs[1] as int - 0x80;
    assert n == (b0 - 0xC0) * 0x40 + t1;
    DivMod(n, 0x40);
    assert n / 0x40 == b0 - 0xC0 && n % 0x40 == t1;
  }

  lemma ThreeBytesAreEncoding(bs: seq<byte>)
    requires bs != [] && 0xE0 <= bs[0] < 0xF0 && DecodeFirst(bs).Some?
    ensures EncodeChar(DecodeFirst(bs).value.0) == bs[..3]
  {
    var b0 := bs[0] as int;
    var n := DecodeFirst(bs).value.0 as int;
    var t1, t2 := bs[1] as int - 0x80, bs[2] as int - 0x80;
    assert n == (b0 - 0xE0) * 0x1000 + t1 * 0x40 + t2;
    assert n / 0x40 == (b0 - 0xE0) * 0x40 + t1 && n % 0x40 == t2;
    assert n / 0x40 / 0x40 == b0 - 0xE0 && n / 0x40 % 0x40 == t1;
    NestedDiv(n);
  }

  lemma FourBytesAreEncoding(bs: seq<byte>)
    requires bs != [] && 0xF0 <= bs[0] < 0xF5 && DecodeFirst(bs).Some?
    ensures EncodeChar(DecodeFirst(bs).value.0) == bs[..4]
  {
    var b0 := bs[0] as int;
    var n := DecodeFirst(bs).value.0 as int;
    var t1, t2, t3 := bs[1] as int - 0x80, bs[2] as int - 0x80, bs[3] as int - 0x80;
    assert n == (b0 - 0xF0) * 0x4_0000 + t1 * 0x1000 + t2 * 0x40 + t3;
    assert n / 0x40 == (b0 - 0xF0) * 0x1000 + t1 * 0x40 + t2 && n % 0x40 == t3;
    assert n / 0x40 / 0x40 == (b0 - 0xF0) * 0x40 + t1 && n / 0x40 % 0x40 == t2;
    assert n / 0x40 / 0x40 / 0x40 == b0 - 0xF0 && n / 0x40 / 0x40 % 0x40 == t1;
    NestedDiv(n);
    NestedDiv(n / 0x40);
  }

  /** Decoding inverts encoding: every string survives the round trip. */
  lemma {:induction false} DecodeEncode(s: string)
    ensures Decode(Encode(s)) == Some(s)
  {
    if s != [] {
      var e := EncodeChar(s[0]);
      var rest := Encode(s[1..]);
      DecodeFirstOfEncoding(s[0], rest);
      assert (e + rest)[|e|..] == rest;
      DecodeEncode(s[1..]);
      assert [s[0]] + s[1..] == s;
    }
  }

  /** A successful decoding is the encoding of a first character `c`, `k` bytes long,
      followed by a decodable rest. */
  lemma DecodeStep(bs: seq<byte>) returns (c: char, k: nat)
    requires bs != [] && Decode(bs).Some?
    ensures 1 <= k <= |bs| && EncodeChar(c) == bs[..k]
    ensures Decode(bs[k..]).Some? && Decode(bs).value == [c] + Decode(bs[k..]).value
  {
    c, k := DecodeFirst(bs).value.0, DecodeFirst(bs).value.1;
    DecodeFirstIsEncoding(bs);
  }

  /** Encoding a string is encoding its first character, then the rest. */
  lemma EncodeCons(c: char, s: string)
    ensures Encode([c] + s) == EncodeChar(c) + Encode(s)
  {
    assert ([c] + s)[1..] == s;
  }

  /** Encoding inverts decoding: a byte string that decodes is the encoding of its text. */
  lemma {:induction false} EncodeDecode(bs: seq<byte>)
    requires Decode(bs).Some?
    ensures Encode(Decode(bs).value) == bs
    decreases |bs|
  {
    if bs != [] {
      var c, k := DecodeStep(bs);
      EncodeDecode(bs[k..]);
      EncodeCons(c, Decode(bs[k..]).value);
      assert bs == bs[..k] + bs[k..];
    }
  }

  /** The two round trips together: decoding succeeds on exactly the encodings. */
  lemma DecodeSucceedsExactlyOnEncodings(bs: seq<byte>, s: string)
    ensures Decode(bs) == Some(s) <==> Encode(s) == bs
  {
    if Decode(bs) == Some(s) {
      EncodeDecode(bs);
    }
    if Encode(s) == bs {
      DecodeEncode(s);
    }
  }
}
