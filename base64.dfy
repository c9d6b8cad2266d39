/**
 * The base64 encoding of section 4 of RFC 4648 (standard alphabet, `=`
 * padding), as Python's `base64.b64encode` produces it, and a strict decoder
 * for the same alphabet that inverts it.
 */
module Base64 {
  import opened Wrappers
  import opened Bytes

  /** Values of a single base64 digit. */
  type sextet = x: int | 0 <= x < 64

  const Pad: char := '='

  /** The character that stands for `v` in the table of section 4 of RFC 4648. */
  function Digit(v: sextet): (c: char)
    ensures IsDigit(c)
  {
    if v < 26 then ('A' as int + v) as char
    else if v < 52 then ('a' as int + (v - 26)) as char
    else if v < 62 then ('0' as int + (v - 52)) as char
    else if v == 62 then '+'
    else '/'
  }

  /** `c` is one of the 64 characters of the alphabet (padding is not). */
  predicate IsDigit(c: char)
  {
    ('A' <= c <= 'Z') || ('a' <= c <= 'z') || ('0' <= c <= '9') || c == '+' || c == '/'
  }

  /** The value of a base64 digit: the one value `Digit` maps to it. */
  function DigitValue(c: char): (v: sextet)
    requires IsDigit(c)
    ensures Digit(v) == c
  {
    if 'A' <= c <= 'Z' then c as int - 'A' as int
    else if 'a' <= c <= 'z' then c as int - 'a' as int + 26
    else if '0' <= c <= '9' then c as int - '0' as int + 52
    else if c == '+' then 62
    else 63
  }

  /** Distinct values have distinct digits. */
  lemma DigitValueOfDigit(v: sextet)
    ensures DigitValue(Digit(v)) == v
  {
  }

  /** The number of `=` characters that close the encoding of `n` octets. */
  function PadCount(n: nat): nat
  {
    (3 - n % 3) % 3
  }

  /** Three octets, 24 bits, as four digits of six bits each, most significant first. */
  function EncodeGroup(b0: byte, b1: byte, b2: byte): string
  {
    [Digit(b0 / 4), Digit((b0 % 4) * 16 + b1 / 16), Digit((b1 % 16) * 4 + b2 / 64), Digit(b2 % 64)]
  }

  /**
   * Encodes octets: each group of three becomes four digits; a final group of
   * one or two octets is completed with zero bits and its missing digits are `=`.
   */
  function Encode(s: seq<byte>): (r: string)
    ensures |r| == 4 * ((|s| + 2) / 3)
    decreases |s|
  {
    if |s| == 0 then []
    else if |s| == 1 then EncodeGroup(s[0], 0, 0)[..2] + [Pad, Pad]
    else if |s| == 2 then EncodeGroup(s[0], s[1], 0)[..3] + [Pad]
    else
      var rest := s[3..];
      assert (|s| + 2) / 3 == (|rest| + 2) / 3 + 1;
      EncodeGroup(s[0], s[1], s[2]) + Encode(rest)
  }

  /** `r` is digits of the alphabet followed by exactly `p` padding characters. */
  predicate PaddedDigits(r: string, p: nat)
  {
    p <= |r| &&
    (forall i :: 0 <= i < |r| - p ==> IsDigit(r[i])) &&
    (forall i :: |r| - p <= i < |r| ==> r[i] == Pad)
  }

  /** Four digits in front keep the shape. */
  lemma PrependDigits(head: string, tail: string, p: nat)
    requires |head| == 4 && IsDigit(head[0]) && IsDigit(head[1]) && IsDigit(head[2]) && IsDigit(head[3])
    requires PaddedDigits(tail, p)
    ensures PaddedDigits(head + tail, p)
  {
    var r := head + tail;
    forall i | 0 <= i < |r| - p
      ensures IsDigit(r[i])
    {
      if i >= 4 {
        assert r[i] == tail[i - 4];
      }
    }
    forall i | |r| - p <= i < |r|
      ensures r[i] == Pad
    {
      assert r[i] == tail[i - 4];
    }
  }

  /**
   * The encoding is over the alphabet, closed by (3 - n mod 3) mod 3 `=`
   * characters; `=` is not a digit, so it occurs nowhere else.
   */
  lemma {:induction false} EncodeAlphabet(s: seq<byte>)
    ensures PaddedDigits(Encode(s), PadCount(|s|))
    ensures !IsDigit(Pad)
    decreases |s|
  {
    if |s| == 1 {
      var r := Encode(s);
      assert r == [Digit(s[0] / 4), Digit((s[0] % 4) * 16), Pad, Pad];
      assert PadCount(1) == 2;
    } else if |s| == 2 {
      var r := Encode(s);
      assert r == [Digit(s[0] / 4), Digit((s[0] % 4) * 16 + s[1] / 16), Digit((s[1] % 16) * 4), Pad];
      assert PadCount(2) == 1;
    } else if |s| > 2 {
      var p := PadCount(|s| - 3);
      EncodeAlphabet(s[3..]);
      assert PadCount(|s|) == p;
      PrependDigits(EncodeGroup(s[0], s[1], s[2]), Encode(s[3..]), p);
    }
  }

  /** Four digit values as the three octets they spell. */
  function DecodeGroup(v0: sextet, v1: sextet, v2: sextet, v3: sextet): seq<byte>
  {
    [v0 * 4 + v1 / 16, (v1 % 16) * 16 + v2 / 4, (v2 % 4) * 64 + v3]
  }

  /** Decodes one unpadded quantum of four digits into three octets. */
  function DecodeQuantum(q: string): Option<seq<byte>>
    requires |q| == 4
  {
    if IsDigit(q[0]) && IsDigit(q[1]) && IsDigit(q[2]) && IsDigit(q[3]) then
      Some(DecodeGroup(DigitValue(q[0]), DigitValue(q[1]), DigitValue(q[2]), DigitValue(q[3])))
    else None
  }

  /**
   * Decodes the last quantum, which may carry one or two `=`; the bits the
   * padding discards must be zero, so that every text has at most one decoding.
   */
  function DecodeFinal(q: string): Option<seq<byte>>
    requires |q| == 4
  {
    if IsDigit(q[0]) && IsDigit(q[1]) && q[2] == Pad && q[3] == Pad then
      if DigitValue(q[1]) % 16 == 0 then Some(DecodeGroup(DigitValue(q[0]), DigitValue(q[1]), 0, 0)[..1])
      else None
    else if IsDigit(q[0]) && IsDigit(q[1]) && IsDigit(q[2]) && q[3] == Pad then
      if DigitValue(q[2]) % 4 == 0 then Some(DecodeGroup(DigitValue(q[0]), DigitValue(q[1]), DigitValue(q[2]), 0)[..2])
      else None
    else DecodeQuantum(q)
  }

  /** Decodes a whole text; `None` when it is not a canonical base64 encoding. */
  function Decode(t: string): Option<seq<byte>>
    decreases |t|
  {
    if |t| == 0 then Some([])
    else if |t| < 4 then None
    else if |t| == 4 then DecodeFinal(t)
    else match DecodeQuantum(t[..4])
      case None => None
      case Some(head) =>
        match Decode(t[4..])
        case None => None
        case Some(tail) => Some(head + tail)
  }

  /** Splitting 24 bits into four sextets and joining them again is the identity. */
  lemma OctetsThroughSextets(b0: byte, b1: byte, b2: byte)
    ensures DecodeGroup(b0 / 4, (b0 % 4) * 16 + b1 / 16, (b1 % 16) * 4 + b2 / 64, b2 % 64) == [b0, b1, b2]
  {
  }

  /** Joining four sextets into 24 bits and splitting them again is the identity. */
  lemma SextetsThroughOctets(v0: sextet, v1: sextet, v2: sextet, v3: sextet)
    ensures var s := DecodeGroup(v0, v1, v2, v3);
      s[0] / 4 == v0 && (s[0] % 4) * 16 + s[1] / 16 == v1 &&
      (s[1] % 16) * 4 + s[2] / 64 == v2 && s[2] % 64 == v3
  {
  }

  lemma DecodeEncodeGroup(b0: byte, b1: byte, b2: byte)
    ensures DecodeQuantum(EncodeGroup(b0, b1, b2)) == Some([b0, b1, b2])
  {
    var q := EncodeGroup(b0, b1, b2);
    DigitValueOfDigit(b0 / 4);
    DigitValueOfDigit((b0 % 4) * 16 + b1 / 16);
    DigitValueOfDigit((b1 % 16) * 4 + b2 / 64);
    DigitValueOfDigit(b2 % 64);
    OctetsThroughSextets(b0, b1, b2);
  }

  lemma EncodeDecodeGroup(q: string)
    requires |q| == 4 && DecodeQuantum(q).Some?
    ensures var s := DecodeQuantum(q).value; |s| == 3 && EncodeGroup(s[0], s[1], s[2]) == q
  {
    SextetsThroughOctets(DigitValue(q[0]), DigitValue(q[1]), DigitValue(q[2]), DigitValue(q[3]));
  }

  lemma DecodeEncodeOne(b0: byte)
    ensures Decode(Encode([b0])) == Some([b0])
  {
    var t := Encode([b0]);
    DigitValueOfDigit(b0 / 4);
    DigitValueOfDigit((b0 % 4) * 16);
    assert t == [Digit(b0 / 4), Digit((b0 % 4) * 16), Pad, Pad];
    assert DecodeGroup(b0 / 4, (b0 % 4) * 16, 0, 0)[..1] == [b0];
    assert DecodeFinal(t) == Some([b0]);
  }

  lemma DecodeEncodeTwo(b0: byte, b1: byte)
    ensures Decode(Encode([b0, b1])) == Some([b0, b1])
  {
    var t := Encode([b0, b1]);
    var v0, v1, v2 := b0 / 4, (b0 % 4) * 16 + b1 / 16, (b1 % 16) * 4;
    DigitValueOfDigit(v0);
    DigitValueOfDigit(v1);
    DigitValueOfDigit(v2);
    OctetsThroughSextets(b0, b1, 0);
    assert t == [Digit(v0), Digit(v1), Digit(v2), Pad];
    assert DecodeGroup(v0, v1, v2, 0)[..2] == [b0, b1];
    assert DecodeFinal(t) == Some([b0, b1]);
  }

  /** A last quantum of four digits decodes as any other quantum. */
  lemma FinalQuantumWithoutPadding(q: string)
    requires |q| == 4 && IsDigit(q[2]) && IsDigit(q[3])
    ensures Decode(q) == DecodeQuantum(q)
  {
  }

  /** A full quantum in front of a non-empty decodable text decodes in front of its octets. */
  lemma DecodeInFront(q: string, t: string, head: seq<byte>, tail: seq<byte>)
    requires |q| == 4 && DecodeQuantum(q) == Some(head)
    requires |t| > 0 && Decode(t) == Some(tail)
    ensures Decode(q + t) == Some(head + tail)
  {
    var u := q + t;
    assert u[..4] == q;
    assert u[4..] == t;
  }

  /** Decoding the encoding of any octets gives those octets back. */
  lemma {:induction false} DecodeEncode(s: seq<byte>)
    ensures Decode(Encode(s)) == Some(s)
    decreases |s|
  {
    if |s| == 1 {
      DecodeEncodeOne(s[0]);
      assert s == [s[0]];
    } else if |s| == 2 {
      DecodeEncodeTwo(s[0], s[1]);
      assert s == [s[0], s[1]];
    } else if |s| > 2 {
      var rest := s[3..];
      var q := EncodeGroup(s[0], s[1], s[2]);
      DecodeEncodeGroup(s[0], s[1], s[2]);
      assert s == [s[0], s[1], s[2]] + rest;
      if |rest| == 0 {
        assert Encode(s) == q + Encode(rest) == q;
        FinalQuantumWithoutPadding(q);
        assert s == [s[0], s[1], s[2]];
      } else {
        DecodeEncode(rest);
        DecodeInFront(q, Encode(rest), [s[0], s[1], s[2]], rest);
      }
    }
  }

  /** The last quantum, padded or not, is the encoding of what it decodes to. */
  lemma EncodeDecodeFinal(q: string, s: seq<byte>)
    requires |q| == 4 && DecodeFinal(q) == Some(s)
    ensures Encode(s) == q
  {
    if q[2] == Pad && q[3] == Pad {
      SextetsThroughOctets(DigitValue(q[0]), DigitValue(q[1]), 0, 0);
    } else if q[3] == Pad {
      SextetsThroughOctets(DigitValue(q[0]), DigitValue(q[1]), DigitValue(q[2]), 0);
    } else {
      EncodeDecodeGroup(q);
      assert Encode(s) == EncodeGroup(s[0], s[1], s[2]) + Encode(s[3..]);
    }
  }

  /** Three octets in front encode as one quantum in front. */
  lemma EncodeInFront(head: seq<byte>, tail: seq<byte>)
    requires |head| == 3
    ensures Encode(head + tail) == EncodeGroup(head[0], head[1], head[2]) + Encode(tail)
  {
    var u := head + tail;
    assert u[3..] == tail;
  }

  /** A text that decodes is the encoding of what it decodes to: the decoder accepts nothing else. */
  lemma {:induction false} EncodeDecode(t: string, s: seq<byte>)
    requires Decode(t) == Some(s)
    ensures Encode(s) == t
    decreases |t|
  {
    if |t| == 4 {
      EncodeDecodeFinal(t, s);
    } else if |t| > 4 {
      var q, rest := t[..4], t[4..];
      var head := DecodeQuantum(q).value;
      var tail := Decode(rest).value;
      assert s == head + tail;
      EncodeDecode(rest, tail);
      EncodeDecodeGroup(q);
      EncodeInFront(head, tail);
      assert t == q + rest;
    }
  }
}
