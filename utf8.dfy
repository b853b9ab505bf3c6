/** UTF-8 as accepted by Rust's `str::from_utf8`: the well-formed byte
    sequences of section 4 of RFC 3629 (no overlong forms, no surrogates,
    nothing above U+10FFFF). The iterator decodes every tag's local name with
    it and ends iteration when decoding fails. */
module Utf8 {
  import opened Wrappers

  newtype byte = b: int | 0 <= b < 256

  predicate IsCont(b: byte) {
    0x80 <= b <= 0xBF
  }

  /** The range the second byte must lie in after lead byte `b0` (the table of
      section 4 of RFC 3629); the bytes after it are plain continuation bytes. */
  predicate SecondOk(b0: byte, b1: byte) {
    if b0 == 0xE0 then 0xA0 <= b1 <= 0xBF
    else if b0 == 0xED then 0x80 <= b1 <= 0x9F
    else if b0 == 0xF0 then 0x90 <= b1 <= 0xBF
    else if b0 == 0xF4 then 0x80 <= b1 <= 0x8F
    else IsCont(b1)
  }

  /** The number of bytes UTF-8 spends on scalar value `n`. */
  function Width(n: int): nat {
    if n < 0x80 then 1 else if n < 0x800 then 2 else if n < 0x1_0000 then 3 else 4
  }

  /** Decodes the first character of `bs`, giving it and the number of bytes it took. */
  function DecodeFirst(bs: seq<byte>): (r: Option<(char, nat)>)
    ensures r.Some? ==> 1 <= r.value.1 <= |bs|
  {
    if |bs| == 0 then None
    else
      var b0 := bs[0];
      if b0 < 0x80 then
        Some((b0 as int as char, 1))
      else if 0xC2 <= b0 <= 0xDF then
        if 2 <= |bs| && IsCont(bs[1]) then
          Some((((b0 as int - 0xC0) * 64 + (bs[1] as int - 0x80)) as char, 2))
        else None
      else if 0xE0 <= b0 <= 0xEF then
        if 3 <= |bs| && SecondOk(b0, bs[1]) && IsCont(bs[2]) then
          Some((((b0 as int - 0xE0) * 4096 + (bs[1] as int - 0x80) * 64 + (bs[2] as int - 0x80)) as char, 3))
        else None
      else if 0xF0 <= b0 <= 0xF4 then
        if 4 <= |bs| && SecondOk(b0, bs[1]) && IsCont(bs[2]) && IsCont(bs[3]) then
          Some((((b0 as int - 0xF0) * 262144 + (bs[1] as int - 0x80) * 4096
                 + (bs[2] as int - 0x80) * 64 + (bs[3] as int - 0x80)) as char, 4))
        else None
      else None
  }

  /** `str::from_utf8`: the string `bs` encodes, or None when `bs` is not well-formed UTF-8. */
  function Decode(bs: seq<byte>): (r: Option<string>)
    ensures r.Some? ==> |r.value| <= |bs| && (r.value == [] <==> bs == [])
    decreases |bs|
  {
    if bs == [] then Some([])
    else match DecodeFirst(bs)
      case None => None
      case Some((c, k)) =>
        match Decode(bs[k..])
        case None => None
        case Some(rest) => Some([c] + rest)
  }

  /** The UTF-8 encoding of one character. */
  function EncodeChar(c: char): (r: seq<byte>)
    ensures |r| == Width(c as int)
  {
    var n := c as int;
    var q1, d1 := n / 64, n % 64;
    var q2, d2 := q1 / 64, q1 % 64;
    var q3, d3 := q2 / 64, q2 % 64;
    if n < 0x80 then [n as byte]
    else if n < 0x800 then [(0xC0 + q1) as byte, (0x80 + d1) as byte]
    else if n < 0x1_0000 then [(0xE0 + q2) as byte, (0x80 + d2) as byte, (0x80 + d1) as byte]
    else [(0xF0 + q3) as byte, (0x80 + d3) as byte, (0x80 + d2) as byte, (0x80 + d1) as byte]
  }

  function Encode(s: string): seq<byte> {
    if s == [] then [] else EncodeChar(s[0]) + Encode(s[1..])
  }

  /** Decoding the first character of an encoding gives that character back. */
  lemma DecodeFirstEncodeChar(c: char, rest: seq<byte>)
    ensures DecodeFirst(EncodeChar(c) + rest) == Some((c, Width(c as int)))
  {
    var n := c as int;
    if n < 0x80 {
    } else if n < 0x800 {
      DecodeFirstTwo(c, rest);
    } else if n < 0x1_0000 {
      DecodeFirstThree(c, rest);
    } else {
      DecodeFirstFour(c, rest);
    }
  }

  lemma DecodeFirstTwo(c: char, rest: seq<byte>)
    requires 0x80 <= c as int < 0x800
    ensures DecodeFirst(EncodeChar(c) + rest) == Some((c, 2))
  {
    var n := c as int;
    var bs := EncodeChar(c) + rest;
    assert bs[0] as int == 0xC0 + n / 64 && bs[1] as int == 0x80 + n % 64;
  }

  lemma DecodeFirstThree(c: char, rest: seq<byte>)
    requires 0x800 <= c as int < 0x1_0000
    ensures DecodeFirst(EncodeChar(c) + rest) == Some((c, 3))
  {
    var n := c as int;
    var bs := EncodeChar(c) + rest;
    var q1, d1 := n / 64, n % 64;
    var q2, d2 := q1 / 64, q1 % 64;
    assert bs[0] as int == 0xE0 + q2 && bs[1] as int == 0x80 + d2 && bs[2] as int == 0x80 + d1;
    assert n == q2 * 4096 + d2 * 64 + d1;
  }

  lemma DecodeFirstFour(c: char, rest: seq<byte>)
    requires 0x1_0000 <= c as int
    ensures DecodeFirst(EncodeChar(c) + rest) == Some((c, 4))
  {
    var n := c as int;
    var bs := EncodeChar(c) + rest;
    var q1, d1 := n / 64, n % 64;
    var q2, d2 := q1 / 64, q1 % 64;
    var q3, d3 := q2 / 64, q2 % 64;
    assert bs[0] as int == 0xF0 + q3 && bs[1] as int == 0x80 + d3;
    assert bs[2] as int == 0x80 + d2 && bs[3] as int == 0x80 + d1;
    assert n == q3 * 262144 + d3 * 4096 + d2 * 64 + d1;
  }

  /** Whatever DecodeFirst accepts is exactly the encoding of the character it returns. */
  lemma EncodeCharDecodeFirst(bs: seq<byte>)
    requires DecodeFirst(bs).Some?
    ensures EncodeChar(DecodeFirst(bs).value.0) == bs[..DecodeFirst(bs).value.1]
  {
    var (c, k) := DecodeFirst(bs).value;
    if k == 2 {
      EncodeCharTwo(bs[0], bs[1], c);
    } else if k == 3 {
      EncodeCharThree(bs[0], bs[1], bs[2], c);
    } else if k == 4 {
      EncodeCharFour(bs[0], bs[1], bs[2], bs[3], c);
    }
  }

  lemma EncodeCharTwo(b0: byte, b1: byte, c: char)
    requires 0xC2 <= b0 <= 0xDF && IsCont(b1)
    requires c as int == (b0 as int - 0xC0) * 64 + (b1 as int - 0x80)
    ensures EncodeChar(c) == [b0, b1]
  {
    var a, b := b0 as int - 0xC0, b1 as int - 0x80;
    assert c as int / 64 == a && c as int % 64 == b;
  }

  lemma EncodeCharThree(b0: byte, b1: byte, b2: byte, c: char)
    requires 0xE0 <= b0 <= 0xEF && SecondOk(b0, b1) && IsCont(b2)
    requires c as int == (b0 as int - 0xE0) * 4096 + (b1 as int - 0x80) * 64 + (b2 as int - 0x80)
    ensures EncodeChar(c) == [b0, b1, b2]
  {
    var n := c as int;
    var a, b, d := b0 as int - 0xE0, b1 as int - 0x80, b2 as int - 0x80;
    assert n / 64 == a * 64 + b && n % 64 == d;
    assert (a * 64 + b) / 64 == a && (a * 64 + b) % 64 == b;
  }

  lemma EncodeCharFour(b0: byte, b1: byte, b2: byte, b3: byte, c: char)
    requires 0xF0 <= b0 <= 0xF4 && SecondOk(b0, b1) && IsCont(b2) && IsCont(b3)
    requires c as int == (b0 as int - 0xF0) * 262144 + (b1 as int - 0x80) * 4096
                         + (b2 as int - 0x80) * 64 + (b3 as int - 0x80)
    ensures EncodeChar(c) == [b0, b1, b2, b3]
  {
    var n := c as int;
    var a, b, d, f := b0 as int - 0xF0, b1 as int - 0x80, b2 as int - 0x80, b3 as int - 0x80;
    assert n / 64 == (a * 64 + b) * 64 + d && n % 64 == f;
    assert ((a * 64 + b) * 64 + d) / 64 == a * 64 + b && ((a * 64 + b) * 64 + d) % 64 == d;
    assert (a * 64 + b) / 64 == a && (a * 64 + b) % 64 == b;
  }

  /** Every string survives encoding and decoding. */
  lemma {:induction false} DecodeEncode(s: string)
    ensures Decode(Encode(s)) == Some(s)
  {
    if s != [] {
      var e := EncodeChar(s[0]);
      DecodeFirstEncodeChar(s[0], Encode(s[1..]));
      assert (e + Encode(s[1..]))[|e|..] == Encode(s[1..]);
      DecodeEncode(s[1..]);
      assert [s[0]] + s[1..] == s;
    }
  }

  /** Decoding is exact: the bytes it accepts are the encoding of what it returns. */
  lemma {:induction false} EncodeDecode(bs: seq<byte>)
    requires Decode(bs).Some?
    ensures Encode(Decode(bs).value) == bs
    decreases |bs|
  {
    if bs != [] {
      var c, k := DecodeCons(bs);
      EncodeDecode(bs[k..]);
      EncodeJoin(bs, c, k, Decode(bs[k..]).value);
    }
  }

  /** A character's encoding followed by the encoding of the rest makes up the whole. */
  lemma EncodeJoin(bs: seq<byte>, c: char, k: nat, rest: string)
    requires k <= |bs| && EncodeChar(c) == bs[..k] && Encode(rest) == bs[k..]
    ensures Encode([c] + rest) == bs
  {
    EncodeCons(c, rest);
    assert bs[..k] + bs[k..] == bs;
  }

  /** A non-empty well-formed sequence starts with the encoding of one character. */
  lemma DecodeCons(bs: seq<byte>) returns (c: char, k: nat)
    requires bs != [] && Decode(bs).Some?
    ensures 1 <= k <= |bs| && EncodeChar(c) == bs[..k]
    ensures Decode(bs[k..]).Some? && Decode(bs).value == [c] + Decode(bs[k..]).value
  {
    c, k := DecodeFirst(bs).value.0, DecodeFirst(bs).value.1;
    EncodeCharDecodeFirst(bs);
  }

  lemma EncodeCons(c: char, s: string)
    ensures Encode([c] + s) == EncodeChar(c) + Encode(s)
  {
    assert ([c] + s)[1..] == s;
  }
}
