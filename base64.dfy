/** Base64 as in section 4 of RFC 4648 (Python's `base64.b64encode`):
    every 3 input bytes become 4 characters of the 64-character
    alphabet, and a final group of 1 or 2 bytes is padded with '='.
    The decoder is the encoder's partner: it is used to prove that the
    encoding loses nothing. */
module Base64 {
  import opened Wrappers
  import opened Bytes

  type sextet = x: int | 0 <= x < 64

  /** The alphabet of Table 1 in section 4 of RFC 4648, value 0 first. */
  const Upper: string := "ABCDEFGHIJKLMNOPQRSTUVWXYZ"
  const Lower: string := "abcdefghijklmnopqrstuvwxyz"
  const Numerals: string := "0123456789"
  const Alphabet: string := Upper + Lower + Numerals + "+/"

  /** The character of the alphabet for a 6-bit value:
      A-Z, a-z, 0-9, '+', '/'. */
  function Digit(x: sextet): (c: char)
  {
    if x < 26 then ('A' as int + x) as char
    else if x < 52 then ('a' as int + x - 26) as char
    else if x < 62 then ('0' as int + x - 52) as char
    else if x == 62 then '+'
    else '/'
  }

  /** The 6-bit value of an alphabet character; None for any other. */
  function Value(c: char): Option<sextet>
  {
    if 'A' <= c <= 'Z' then Some(c as int - 'A' as int)
    else if 'a' <= c <= 'z' then Some(c as int - 'a' as int + 26)
    else if '0' <= c <= '9' then Some(c as int - '0' as int + 52)
    else if c == '+' then Some(62)
    else if c == '/' then Some(63)
    else None
  }

  predicate IsAlphabet(c: char) { Value(c).Some? }

  /** Digit computes the table: the character for x is entry x of the
      alphabet. */
  lemma DigitIsAlphabet(x: sextet)
    ensures |Alphabet| == 64 && Digit(x) == Alphabet[x]
  {
    if x < 26 {
      assert Alphabet[x] == Upper[x];
    } else if x < 52 {
      assert Alphabet[x] == Lower[x - 26];
    } else if x < 62 {
      assert Alphabet[x] == Numerals[x - 52];
    }
  }

  /** The examples of section 10 of RFC 4648 ("f", "fo", "foo", "foobar"),
      plus a group of high bytes that uses '+' and '/'. */
  lemma Rfc4648Examples()
    ensures Encode([]) == ""
    ensures Encode([0x66]) == "Zg=="
    ensures Encode([0x66, 0x6F]) == "Zm8="
    ensures Encode([0x66, 0x6F, 0x6F]) == "Zm9v"
    ensures Encode([0x66, 0x6F, 0x6F, 0x62, 0x61, 0x72]) == "Zm9vYmFy"
    ensures Encode([0xFB, 0xFF, 0xBF]) == "+/+/"
  {
  }

  /** Value reads back what Digit wrote; no digit is the pad character. */
  lemma ValueDigit(x: sextet)
    ensures Value(Digit(x)) == Some(x) && Digit(x) != '='
  {
  }

  /** Three bytes, 24 bits, as four 6-bit groups, most significant first. */
  function EncodeGroup(b0: byte, b1: byte, b2: byte): string
  {
    [Digit(b0 / 4), Digit((b0 % 4) * 16 + b1 / 16), Digit((b1 % 16) * 4 + b2 / 64), Digit(b2 % 64)]
  }

  /** A final single byte: two characters and "==". */
  function EncodeLast1(b0: byte): string
  {
    [Digit(b0 / 4), Digit((b0 % 4) * 16), '=', '=']
  }

  /** A final pair of bytes: three characters and "=". */
  function EncodeLast2(b0: byte, b1: byte): string
  {
    [Digit(b0 / 4), Digit((b0 % 4) * 16 + b1 / 16), Digit((b1 % 16) * 4), '=']
  }

  /** `base64.b64encode(b)`, as text (`.decode('ascii')` of its result). */
  function Encode(b: seq<byte>): string
    decreases |b|
  {
    if |b| == 0 then ""
    else if |b| == 1 then EncodeLast1(b[0])
    else if |b| == 2 then EncodeLast2(b[0], b[1])
    else
      EncodeGroup(b[0], b[1], b[2]) + Encode(b[3..])
  }

  /** Every 3 bytes, and a final 1 or 2, take 4 characters. */
  lemma {:induction false} EncodeLength(b: seq<byte>)
    ensures |Encode(b)| == 4 * ((|b| + 2) / 3)
    decreases |b|
  {
    if |b| > 3 {
      EncodeLength(b[3..]);
      assert (|b| + 2) / 3 == (|b[3..]| + 2) / 3 + 1;
    }
  }

  /** The encoding is plain ASCII: alphabet characters and padding. */
  lemma {:induction false} EncodeAlphabet(b: seq<byte>)
    ensures forall i :: 0 <= i < |Encode(b)| ==> IsAlphabet(Encode(b)[i]) || Encode(b)[i] == '='
    decreases |b|
  {
    if |b| > 3 {
      EncodeAlphabet(b[3..]);
      var g := EncodeGroup(b[0], b[1], b[2]);
      assert Encode(b) == g + Encode(b[3..]);
      forall i | 0 <= i < |Encode(b)|
        ensures IsAlphabet(Encode(b)[i]) || Encode(b)[i] == '='
      {
        if i >= 4 {
          assert Encode(b)[i] == Encode(b[3..])[i - 4];
        }
      }
    }
  }

  /** Four 6-bit groups back to the three bytes they carry. */
  function DecodeGroup(x0: sextet, x1: sextet, x2: sextet, x3: sextet): seq<byte>
  {
    [x0 * 4 + x1 / 16, (x1 % 16) * 16 + x2 / 4, (x2 % 4) * 64 + x3]
  }

  /** Decodes one 4-character group; `last` says whether padding may
      appear in it. */
  function DecodeQuad(q: string, last: bool): Option<seq<byte>>
    requires |q| == 4
  {
    match (Value(q[0]), Value(q[1]), Value(q[2]), Value(q[3]))
    case (Some(x0), Some(x1), Some(x2), Some(x3)) => Some(DecodeGroup(x0, x1, x2, x3))
    case (Some(x0), Some(x1), Some(x2), None) =>
      if last && q[3] == '=' then Some(DecodeGroup(x0, x1, x2, 0)[..2]) else None
    case (Some(x0), Some(x1), None, None) =>
      if last && q[2] == '=' && q[3] == '=' then Some(DecodeGroup(x0, x1, 0, 0)[..1]) else None
    case _ => None
  }

  /** Strict decoding: whole 4-character groups, padding only at the end. */
  function Decode(s: string): Option<seq<byte>>
    decreases |s|
  {
    if |s| == 0 then Some([])
    else if |s| < 4 then None
    else match DecodeQuad(s[..4], |s| == 4)
      case None => None
      case Some(head) =>
        match Decode(s[4..])
        case None => None
        case Some(tail) => Some(head + tail)
  }

  lemma GroupRoundTrip(b0: byte, b1: byte, b2: byte)
    ensures DecodeGroup(b0 / 4, (b0 % 4) * 16 + b1 / 16, (b1 % 16) * 4 + b2 / 64, b2 % 64) == [b0, b1, b2]
  {
  }

  lemma QuadOfGroup(b0: byte, b1: byte, b2: byte, last: bool)
    ensures DecodeQuad(EncodeGroup(b0, b1, b2), last) == Some([b0, b1, b2])
  {
    var x0, x1, x2, x3 := b0 / 4, (b0 % 4) * 16 + b1 / 16, (b1 % 16) * 4 + b2 / 64, b2 % 64;
    var q := EncodeGroup(b0, b1, b2);
    ValueDigit(x0); ValueDigit(x1); ValueDigit(x2); ValueDigit(x3);
    GroupRoundTrip(b0, b1, b2);
  }

  /** A final single byte, padded with "==", decodes back. */
  lemma DecodeTail1(b0: byte)
    ensures Decode(EncodeLast1(b0)) == Some([b0])
  {
    var x0, x1 := b0 / 4, (b0 % 4) * 16;
    var q := [Digit(x0), Digit(x1), '=', '='];
    assert q[..4] == q && q[4..] == [];
    ValueDigit(x0); ValueDigit(x1);
    assert DecodeGroup(x0, x1, 0, 0)[..1] == [b0];
    assert DecodeQuad(q[..4], |q| == 4) == Some([b0]);
    assert Decode(q[4..]) == Some([]);
    assert [b0] + [] == [b0];
  }

  /** A final pair of bytes, padded with "=", decodes back. */
  lemma DecodeTail2(b0: byte, b1: byte)
    ensures Decode(EncodeLast2(b0, b1)) == Some([b0, b1])
  {
    var x0, x1, x2 := b0 / 4, (b0 % 4) * 16 + b1 / 16, (b1 % 16) * 4;
    var q := [Digit(x0), Digit(x1), Digit(x2), '='];
    assert q[..4] == q && q[4..] == [];
    ValueDigit(x0); ValueDigit(x1); ValueDigit(x2);
    assert DecodeGroup(x0, x1, x2, 0)[..2] == [b0, b1];
    assert DecodeQuad(q[..4], |q| == 4) == Some([b0, b1]);
    assert Decode(q[4..]) == Some([]);
    assert [b0, b1] + [] == [b0, b1];
  }

  /** One full group in front of the rest of an encoding decodes to its
      three bytes in front of whatever the rest decodes to. */
  lemma DecodeGroupFront(b0: byte, b1: byte, b2: byte, rest: string)
    ensures Decode(EncodeGroup(b0, b1, b2) + rest) ==
      match Decode(rest) case None => None case Some(t) => Some([b0, b1, b2] + t)
  {
    var s := EncodeGroup(b0, b1, b2) + rest;
    assert s[..4] == EncodeGroup(b0, b1, b2) && s[4..] == rest;
    QuadOfGroup(b0, b1, b2, |rest| == 0);
  }

  /** The round trip for the last, possibly padded, group. */
  lemma DecodeEncodeLast(b: seq<byte>)
    requires 1 <= |b| <= 3
    ensures Decode(Encode(b)) == Some(b)
  {
    if |b| == 1 {
      assert Encode(b) == EncodeLast1(b[0]);
      DecodeTail1(b[0]);
      assert b == [b[0]];
    } else if |b| == 2 {
      assert Encode(b) == EncodeLast2(b[0], b[1]);
      DecodeTail2(b[0], b[1]);
      assert b == [b[0], b[1]];
    } else {
      DecodeEncodeGroup(b);
    }
  }

  lemma DecodeEncodeGroup(b: seq<byte>)
    requires |b| == 3
    ensures Decode(Encode(b)) == Some(b)
  {
    var g := EncodeGroup(b[0], b[1], b[2]);
    assert Encode(b) == g + Encode(b[3..]) == g;
    assert g[..4] == g && g[4..] == [];
    QuadOfGroup(b[0], b[1], b[2], true);
    assert Decode(g[4..]) == Some([]);
    assert b == [b[0], b[1], b[2]] + [];
  }

  lemma SplitFront3(b: seq<byte>)
    requires |b| >= 3
    ensures b == [b[0], b[1], b[2]] + b[3..]
  {
  }

  /** The inductive step of the round trip: a full group in front. */
  lemma DecodeEncodeStep(b: seq<byte>)
    requires |b| > 3 && Decode(Encode(b[3..])) == Some(b[3..])
    ensures Decode(Encode(b)) == Some(b)
  {
    SplitFront3(b);
    var rest := Encode(b[3..]);
    assert Encode(b) == EncodeGroup(b[0], b[1], b[2]) + rest;
    DecodeGroupFront(b[0], b[1], b[2], rest);
  }

  /** Round trip: decoding the encoding gives back the original bytes. */
  lemma {:induction false} DecodeEncode(b: seq<byte>)
    ensures Decode(Encode(b)) == Some(b)
    decreases |b|
  {
    if 1 <= |b| <= 3 {
      DecodeEncodeLast(b);
    } else if |b| > 3 {
      DecodeEncode(b[3..]);
      DecodeEncodeStep(b);
    }
  }

  /** Distinct byte strings have distinct encodings. */
  lemma EncodeInjective(a: seq<byte>, b: seq<byte>)
    requires Encode(a) == Encode(b)
    ensures a == b
  {
    DecodeEncode(a);
    DecodeEncode(b);
  }
}
