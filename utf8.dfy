/** UTF-8 (RFC 3629) as Python's 'utf-8' codec applies it: `str.encode`
    turns a string of Unicode scalar values into bytes, and the strict
    `bytes.decode` turns bytes back into a string or raises.  A Dafny
    `char` is a Unicode scalar value, so encoding never fails; decoding
    fails (None) on anything that is not well-formed UTF-8. */
module Utf8 {
  import opened Wrappers
  import opened Bytes

  /** A continuation byte 10xxxxxx. */
  predicate IsContinuation(b: byte) { 0x80 <= b < 0xC0 }

  /** The bytes of one scalar value, shortest form: the value's bits are
      split into 6-bit groups, the first byte carrying the length marker. */
  function EncodeChar(c: char): (r: seq<byte>)
    ensures 1 <= |r| <= 4
    ensures (c as int < 0x80) <==> |r| == 1
    ensures forall i :: 1 <= i < |r| ==> IsContinuation(r[i])
  {
    var cp := c as int;
    var q1, r0 := cp / 64, cp % 64;
    var q2, r1 := q1 / 64, q1 % 64;
    var q3, r2 := q2 / 64, q2 % 64;
    if cp < 0x80 then [cp]
    else if cp < 0x800 then [0xC0 + q1, 0x80 + r0]
    else if cp < 0x1_0000 then [0xE0 + q2, 0x80 + r1, 0x80 + r0]
    else [0xF0 + q3, 0x80 + r2, 0x80 + r1, 0x80 + r0]
  }

  /** `s.encode('utf-8')`. */
  function Encode(s: string): seq<byte>
  {
    if s == [] then [] else EncodeChar(s[0]) + Encode(s[1..])
  }

  /** The 6 payload bits of a continuation byte. */
  function Bits(b: byte): int { b as int - 0x80 }

  /** Decodes the scalar value at the front of `b` and says how many bytes
      it took; None when the front of `b` is not a well-formed sequence
      (stray continuation byte, truncated sequence, overlong form,
      surrogate, or a value above U+10FFFF). */
  function DecodeChar(b: seq<byte>): (r: Option<(char, nat)>)
    requires b != []
    ensures r.Some? ==> 1 <= r.value.1 <= |b|
  {
    var b0 := b[0] as int;
    if b0 < 0x80 then Some((b0 as char, 1))
    else if 0xC2 <= b0 < 0xE0 then
      if |b| < 2 || !IsContinuation(b[1]) then None
      else
        var cp := (b0 - 0xC0) * 64 + Bits(b[1]);
        Some((cp as char, 2))
    else if 0xE0 <= b0 < 0xF0 then
      if |b| < 3 || !IsContinuation(b[1]) || !IsContinuation(b[2]) then None
      else
        var cp := ((b0 - 0xE0) * 64 + Bits(b[1])) * 64 + Bits(b[2]);
        if cp < 0x800 || (0xD800 <= cp < 0xE000) then None
        else Some((cp as char, 3))
    else if 0xF0 <= b0 < 0xF5 then
      if |b| < 4 || !IsContinuation(b[1]) || !IsContinuation(b[2]) || !IsContinuation(b[3]) then None
      else
        var cp := (((b0 - 0xF0) * 64 + Bits(b[1])) * 64 + Bits(b[2])) * 64 + Bits(b[3]);
        if cp < 0x1_0000 || cp >= 0x11_0000 then None
        else Some((cp as char, 4))
    else None
  }

  /** `b.decode('utf-8')`: None where Python raises UnicodeDecodeError. */
  function Decode(b: seq<byte>): Option<string>
    decreases |b|
  {
    if b == [] then Some([])
    else match DecodeChar(b)
      case None => None
      case Some((c, n)) =>
        match Decode(b[n..])
        case None => None
        case Some(rest) => Some([c] + rest)
  }

  /** Euclidean division by 64 undoes a shift by 6 bits. */
  lemma Shift6(q: int, r: int)
    requires 0 <= r < 64
    ensures (q * 64 + r) / 64 == q && (q * 64 + r) % 64 == r
  {
  }

  /** Decoding reads back exactly the character that was encoded, and
      exactly its bytes, whatever follows. */
  lemma DecodeEncodeChar(c: char, rest: seq<byte>)
    ensures DecodeChar(EncodeChar(c) + rest) == Some((c, |EncodeChar(c)|))
  {
    var cp := c as int;
    var q1, r0 := cp / 64, cp % 64;
    var q2, r1 := q1 / 64, q1 % 64;
    var q3, r2 := q2 / 64, q2 % 64;
    assert cp == q1 * 64 + r0 && q1 == q2 * 64 + r1 && q2 == q3 * 64 + r2;
  }

  /** Whatever DecodeChar accepts is the shortest-form encoding of the
      character it returns. */
  lemma EncodeDecodeChar(b: seq<byte>)
    requires b != [] && DecodeChar(b).Some?
    ensures EncodeChar(DecodeChar(b).value.0) == b[..DecodeChar(b).value.1]
  {
    var b0 := b[0] as int;
    if b0 < 0x80 {
    } else if b0 < 0xE0 {
      Shift6(b0 - 0xC0, Bits(b[1]));
    } else if b0 < 0xF0 {
      var q := (b0 - 0xE0) * 64 + Bits(b[1]);
      Shift6(q, Bits(b[2]));
      Shift6(b0 - 0xE0, Bits(b[1]));
    } else {
      var q' := (b0 - 0xF0) * 64 + Bits(b[1]);
      var q := q' * 64 + Bits(b[2]);
      Shift6(q, Bits(b[3]));
      Shift6(q', Bits(b[2]));
      Shift6(b0 - 0xF0, Bits(b[1]));
    }
  }

  /** Round trip: every string survives encode-then-decode. */
  lemma {:induction false} DecodeEncode(s: string)
    ensures Decode(Encode(s)) == Some(s)
  {
    if s != [] {
      var e := EncodeChar(s[0]);
      var b := e + Encode(s[1..]);
      assert Encode(s) == b;
      DecodeEncodeChar(s[0], Encode(s[1..]));
      assert b[|e|..] == Encode(s[1..]);
      DecodeEncode(s[1..]);
      assert [s[0]] + s[1..] == s;
    }
  }

  /** Round trip the other way: bytes that decode are the encoding of
      what they decode to, so nothing is lost between a payload's decode
      and its later re-encode. */
  lemma {:induction false} EncodeDecode(b: seq<byte>)
    requires Decode(b).Some?
    ensures Encode(Decode(b).value) == b
    decreases |b|
  {
    if b != [] {
      var c := DecodeChar(b).value.0;
      var n := DecodeChar(b).value.1;
      EncodeDecodeChar(b);
      EncodeDecode(b[n..]);
      var s := Decode(b).value;
      assert s == [c] + Decode(b[n..]).value;
      assert s[0] == c && s[1..] == Decode(b[n..]).value;
      assert b == b[..n] + b[n..];
    }
  }

  /** Distinct strings have distinct encodings. */
  lemma EncodeInjective(s: string, t: string)
    requires Encode(s) == Encode(t)
    ensures s == t
  {
    DecodeEncode(s);
    DecodeEncode(t);
  }
}
