/**
 * UTF-8 as section 3 of RFC 3629 defines it: what Python's
 * `str.encode("utf8")` does to a path segment before it is base64-encoded,
 * and the decoder that undoes it.
 */
module Utf8 {
  import opened Wrappers
  import opened Bytes

  /** Octets of the form 10xxxxxx, which continue a multi-octet sequence. */
  predicate IsContinuation(b: byte)
  {
    0x80 <= b < 0xC0
  }

  /** The one to four octets of the UTF-8 sequence for one character. */
  function EncodeChar(c: char): (r: seq<byte>)
    ensures 1 <= |r| <= 4
    ensures |r| == 1 <==> c as int < 0x80
    ensures |r| == 1 ==> r[0] == c as int
    ensures forall i :: 1 <= i < |r| ==> IsContinuation(r[i])
  {
    var n := c as int;
    if n < 0x80 then [n]
    else if n < 0x800 then [0xC0 + n / 64, 0x80 + n % 64]
    else if n < 0x10000 then [0xE0 + n / 4096, 0x80 + (n / 64) % 64, 0x80 + n % 64]
    else [0xF0 + n / 262144, 0x80 + (n / 4096) % 64, 0x80 + (n / 64) % 64, 0x80 + n % 64]
  }

  /** The UTF-8 encoding of a text: the sequences of its characters, in order. */
  function Encode(s: string): (r: seq<byte>)
    ensures |s| <= |r| <= 4 * |s|
    ensures (forall i :: 0 <= i < |s| ==> s[i] as int < 0x80) ==>
              |r| == |s| && forall i :: 0 <= i < |s| ==> r[i] == s[i] as int
  {
    if s == [] then [] else EncodeChar(s[0]) + Encode(s[1..])
  }

  /**
   * The character whose sequence starts `b`, and the sequence's length.
   * Overlong forms, surrogates and values above U+10FFFF are refused, as
   * section 3 of RFC 3629 requires.
   */
  function DecodeChar(b: seq<byte>): (r: Option<(char, nat)>)
    requires |b| > 0
    ensures r.Some? ==> 1 <= r.value.1 <= |b|
  {
    var b0: int := b[0];
    if b0 < 0x80 then Some((b0 as char, 1))
    else if 0xC2 <= b0 < 0xE0 && |b| >= 2 && IsContinuation(b[1]) then
      Some((((b0 - 0xC0) * 64 + (b[1] as int - 0x80)) as char, 2))
    else if 0xE0 <= b0 < 0xF0 && |b| >= 3 && IsContinuation(b[1]) && IsContinuation(b[2]) then
      var n := (b0 - 0xE0) * 4096 + (b[1] as int - 0x80) * 64 + (b[2] as int - 0x80);
      if n < 0x800 || 0xD800 <= n < 0xE000 then None else Some((n as char, 3))
    else if 0xF0 <= b0 < 0xF5 && |b| >= 4 && IsContinuation(b[1]) && IsContinuation(b[2]) && IsContinuation(b[3]) then
      var n := (b0 - 0xF0) * 262144 + (b[1] as int - 0x80) * 4096 + (b[2] as int - 0x80) * 64 + (b[3] as int - 0x80);
      if n < 0x10000 || n >= 0x110000 then None else Some((n as char, 4))
    else None
  }

  /** Decodes a whole octet sequence; `None` when it is not well-formed UTF-8. */
  function Decode(b: seq<byte>): Option<string>
    decreases |b|
  {
    if b == [] then Some([])
    else match DecodeChar(b)
      case None => None
      case Some((c, k)) =>
        match Decode(b[k..])
        case None => None
        case Some(tail) => Some([c] + tail)
  }

  /**
   * Arithmetic facts behind the multi-octet forms: the lead octet lies in its
   * range, and the lead bits and six-bit groups put back together give `n`.
   */
  lemma TwoOctetArithmetic(n: int)
    requires 0x80 <= n < 0x800
    ensures 0xC2 <= 0xC0 + n / 64 < 0xE0
    ensures (n / 64) * 64 + n % 64 == n
  {
  }

  lemma ThreeOctetArithmetic(n: int)
    requires 0x800 <= n < 0x10000
    ensures 0xE0 <= 0xE0 + n / 4096 < 0xF0
    ensures (n / 4096) * 4096 + ((n / 64) % 64) * 64 + n % 64 == n
  {
  }

  lemma FourOctetArithmetic(n: int)
    requires 0x10000 <= n < 0x110000
    ensures 0xF0 <= 0xF0 + n / 262144 < 0xF5
    ensures (n / 262144) * 262144 + ((n / 4096) % 64) * 4096 + ((n / 64) % 64) * 64 + n % 64 == n
  {
  }

  /** The sequence of a character, followed by anything, decodes to that character first. */
  lemma DecodeEncodeChar(c: char, rest: seq<byte>)
    ensures DecodeChar(EncodeChar(c) + rest) == Some((c, |EncodeChar(c)|))
  {
    var n := c as int;
    var b := EncodeChar(c) + rest;
    if n < 0x80 {
    } else if n < 0x800 {
      TwoOctetArithmetic(n);
      assert b[0] == 0xC0 + n / 64 && b[1] == 0x80 + n % 64;
    } else if n < 0x10000 {
      ThreeOctetArithmetic(n);
      assert b[0] == 0xE0 + n / 4096 && b[1] == 0x80 + (n / 64) % 64 && b[2] == 0x80 + n % 64;
    } else {
      FourOctetArithmetic(n);
      assert b[0] == 0xF0 + n / 262144 && b[1] == 0x80 + (n / 4096) % 64;
      assert b[2] == 0x80 + (n / 64) % 64 && b[3] == 0x80 + n % 64;
    }
  }

  /** Decoding the UTF-8 encoding of any text gives the text back. */
  lemma {:induction false} DecodeEncode(s: string)
    ensures Decode(Encode(s)) == Some(s)
  {
    if s != [] {
      var e := EncodeChar(s[0]);
      var rest := Encode(s[1..]);
      DecodeEncodeChar(s[0], rest);
      assert (e + rest)[|e|..] == rest;
      DecodeEncode(s[1..]);
      assert s == [s[0]] + s[1..];
    }
  }

  /** Six low bits split off a number and put back. */
  lemma SixBits(q: int, r: int)
    requires 0 <= r < 64
    ensures (q * 64 + r) / 64 == q && (q * 64 + r) % 64 == r
  {
  }

  /** Twelve low bits split off a number and put back. */
  lemma TwelveBits(q: int, r: int)
    requires 0 <= r < 4096
    ensures (q * 4096 + r) / 4096 == q
  {
  }

  /** Eighteen low bits split off a number and put back. */
  lemma EighteenBits(q: int, r: int)
    requires 0 <= r < 262144
    ensures (q * 262144 + r) / 262144 == q
  {
  }

  /** A two-octet sequence is the encoding of the value it carries. */
  lemma TwoOctetsBack(b0: byte, b1: byte)
    requires 0xC2 <= b0 < 0xE0 && IsContinuation(b1)
    ensures EncodeChar(((b0 as int - 0xC0) * 64 + (b1 as int - 0x80)) as char) == [b0, b1]
  {
    SixBits(b0 as int - 0xC0, b1 as int - 0x80);
  }

  /** A three-octet sequence is the encoding of the value it carries, when that is a scalar value from U+0800 on. */
  lemma ThreeOctetsBack(b0: byte, b1: byte, b2: byte)
    requires 0xE0 <= b0 < 0xF0 && IsContinuation(b1) && IsContinuation(b2)
    requires var n := (b0 as int - 0xE0) * 4096 + (b1 as int - 0x80) * 64 + (b2 as int - 0x80);
      0x800 <= n && !(0xD800 <= n < 0xE000)
    ensures EncodeChar(((b0 as int - 0xE0) * 4096 + (b1 as int - 0x80) * 64 + (b2 as int - 0x80)) as char) ==
      [b0, b1, b2]
  {
    var q, r1, r2 := b0 as int - 0xE0, b1 as int - 0x80, b2 as int - 0x80;
    SixBits(q * 64 + r1, r2);
    SixBits(q, r1);
    TwelveBits(q, r1 * 64 + r2);
  }

  /** A four-octet sequence is the encoding of the value it carries, when that lies in U+10000 to U+10FFFF. */
  lemma FourOctetsBack(b0: byte, b1: byte, b2: byte, b3: byte)
    requires 0xF0 <= b0 < 0xF5 && IsContinuation(b1) && IsContinuation(b2) && IsContinuation(b3)
    requires var n := (b0 as int - 0xF0) * 262144 + (b1 as int - 0x80) * 4096 + (b2 as int - 0x80) * 64 + (b3 as int - 0x80);
      0x10000 <= n < 0x110000
    ensures EncodeChar(((b0 as int - 0xF0) * 262144 + (b1 as int - 0x80) * 4096 +
                        (b2 as int - 0x80) * 64 + (b3 as int - 0x80)) as char) == [b0, b1, b2, b3]
  {
    var q, r1, r2, r3 := b0 as int - 0xF0, b1 as int - 0x80, b2 as int - 0x80, b3 as int - 0x80;
    var high := q * 64 + r1;
    SixBits(high * 64 + r2, r3);
    SixBits(high, r2);
    TwelveBits(high, r2 * 64 + r3);
    SixBits(q, r1);
    EighteenBits(q, (r1 * 64 + r2) * 64 + r3);
  }

  /** The octets a character is decoded from are exactly that character's sequence. */
  lemma EncodeDecodeChar(b: seq<byte>)
    requires |b| > 0
    ensures DecodeChar(b).Some? ==> EncodeChar(DecodeChar(b).value.0) == b[..DecodeChar(b).value.1]
  {
    var b0: int := b[0];
    if DecodeChar(b).Some? {
      if b0 < 0x80 {
        assert b[..1] == [b[0]];
      } else if 0xC2 <= b0 < 0xE0 && |b| >= 2 && IsContinuation(b[1]) {
        TwoOctetsBack(b[0], b[1]);
        assert b[..2] == [b[0], b[1]];
      } else if 0xE0 <= b0 < 0xF0 && |b| >= 3 && IsContinuation(b[1]) && IsContinuation(b[2]) {
        ThreeOctetsBack(b[0], b[1], b[2]);
        assert b[..3] == [b[0], b[1], b[2]];
      } else {
        FourOctetsBack(b[0], b[1], b[2], b[3]);
        assert b[..4] == [b[0], b[1], b[2], b[3]];
      }
    }
  }

  /** A successful decode is the first character followed by the decode of the rest. */
  lemma DecodeFirst(b: seq<byte>) returns (c: char, k: nat, tail: string)
    requires b != [] && Decode(b).Some?
    ensures DecodeChar(b) == Some((c, k)) && 1 <= k <= |b|
    ensures Decode(b[k..]) == Some(tail) && Decode(b).value == [c] + tail
  {
    c, k := DecodeChar(b).value.0, DecodeChar(b).value.1;
    tail := Decode(b[k..]).value;
  }

  /**
   * Decoding succeeds only on the encoding of what it returns: every
   * well-formed octet sequence is the one encoding of its text.
   */
  lemma {:induction false} EncodeDecode(b: seq<byte>, s: string)
    ensures Decode(b) == Some(s) ==> Encode(s) == b
    decreases |b|
  {
    if b != [] && Decode(b) == Some(s) {
      var c, k, tail := DecodeFirst(b);
      EncodeDecodeChar(b);
      EncodeDecode(b[k..], tail);
      EncodeInFront(b, k, c, tail);
    }
  }

  /** A character's sequence in front of the encoding of a text is the encoding of both. */
  lemma EncodeInFront(b: seq<byte>, k: nat, c: char, tail: string)
    requires k <= |b| && EncodeChar(c) == b[..k] && Encode(tail) == b[k..]
    ensures Encode([c] + tail) == b
  {
    assert ([c] + tail)[1..] == tail;
    assert b == b[..k] + b[k..];
  }
}
