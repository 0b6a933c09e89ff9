/**
 * UTF-8 as defined by RFC 3629, section 3: the encoding form that turns a
 * string of Unicode scalar values into bytes, and a strict decoder that is
 * used here as its inverse.
 *
 * Dafny's `char` is a Unicode scalar value (a code point outside the
 * surrogate range U+D800..U+DFFF), so every `string` is a well-formed
 * sequence of scalar values.
 */
module Utf8 {
  import opened Wrappers
  import opened Bytes

  /** A byte of the form 10xxxxxx, which continues a multi-byte sequence. */
  predicate IsContinuation(b: Byte) {
    0x80 <= b < 0xC0
  }

  /** An ASCII character, encoded by UTF-8 as the single byte of the same value. */
  predicate IsAscii(c: char) {
    c as int < 0x80
  }

  /**
   * The UTF-8 sequence of one scalar value: one byte below U+0080, two below
   * U+0800, three below U+10000 and four up to U+10FFFF.
   */
  function EncodeScalar(c: char): (r: seq<Byte>)
    ensures 1 <= |r| <= 4
    ensures |r| == 1 <==> IsAscii(c)
    ensures IsAscii(c) ==> r == [c as int]
  {
    var v := c as int;
    if v < 0x80 then
      [v]
    else if v < 0x800 then
      [0xC0 + v / 0x40, 0x80 + v % 0x40]
    else if v < 0x10000 then
      [0xE0 + v / 0x1000, 0x80 + (v / 0x40) % 0x40, 0x80 + v % 0x40]
    else
      [0xF0 + v / 0x40000, 0x80 + (v / 0x1000) % 0x40, 0x80 + (v / 0x40) % 0x40, 0x80 + v % 0x40]
  }

  /** A UTF-8 sequence starts with a lead byte and goes on with continuation bytes only. */
  lemma EncodeScalarShape(c: char)
    ensures var r := EncodeScalar(c);
      !IsContinuation(r[0]) && forall i :: 1 <= i < |r| ==> IsContinuation(r[i])
  {
  }

  /** The UTF-8 encoding of a string: the encodings of its scalar values, in order. */
  function Encode(s: string): (r: seq<Byte>)
    ensures |s| <= |r| <= 4 * |s|
  {
    if |s| == 0 then [] else EncodeScalar(s[0]) + Encode(s[1..])
  }

  /**
   * Reads one scalar value from the front of s and says how many bytes it
   * took. Refuses what RFC 3629 forbids: a stray continuation byte, a
   * truncated sequence, an overlong form, a surrogate and anything above
   * U+10FFFF.
   */
  function DecodeScalar(s: seq<Byte>): (r: Option<(char, nat)>)
    ensures r.Some? ==> 1 <= r.value.1 <= |s|
  {
    if |s| == 0 then
      None
    else if s[0] < 0x80 then
      Some((s[0] as char, 1))
    else if 0xC2 <= s[0] <= 0xDF then
      if 2 <= |s| && IsContinuation(s[1]) then
        var v := Payload2(s[0], s[1]);
        Some((v as char, 2))
      else
        None
    else if 0xE0 <= s[0] <= 0xEF then
      if 3 <= |s| && IsContinuation(s[1]) && IsContinuation(s[2]) then
        var v := Payload3(s[0], s[1], s[2]);
        if 0x800 <= v && !(0xD800 <= v < 0xE000) then Some((v as char, 3)) else None
      else
        None
    else if 0xF0 <= s[0] <= 0xF4 then
      if 4 <= |s| && IsContinuation(s[1]) && IsContinuation(s[2]) && IsContinuation(s[3]) then
        var v := Payload4(s[0], s[1], s[2], s[3]);
        if 0x10000 <= v < 0x110000 then Some((v as char, 4)) else None
      else
        None
    else
      None
  }

  /** The code point carried by a two-byte sequence 110xxxxx 10xxxxxx. */
  function Payload2(b0: Byte, b1: Byte): (v: int)
    requires 0xC2 <= b0 <= 0xDF && IsContinuation(b1)
    ensures 0x80 <= v < 0x800
  {
    (b0 - 0xC0) as int * 0x40 + (b1 - 0x80) as int
  }

  /** The code point carried by a three-byte sequence 1110xxxx 10xxxxxx 10xxxxxx. */
  function Payload3(b0: Byte, b1: Byte, b2: Byte): (v: int)
    requires 0xE0 <= b0 <= 0xEF && IsContinuation(b1) && IsContinuation(b2)
    ensures 0 <= v < 0x10000
  {
    (b0 - 0xE0) as int * 0x1000 + (b1 - 0x80) as int * 0x40 + (b2 - 0x80) as int
  }

  /** The code point carried by a four-byte sequence 11110xxx 10xxxxxx 10xxxxxx 10xxxxxx. */
  function Payload4(b0: Byte, b1: Byte, b2: Byte, b3: Byte): (v: int)
    requires 0xF0 <= b0 <= 0xF4 && IsContinuation(b1) && IsContinuation(b2) && IsContinuation(b3)
    ensures 0 <= v < 0x140000
  {
    (b0 - 0xF0) as int * 0x40000 + (b1 - 0x80) as int * 0x1000 + (b2 - 0x80) as int * 0x40 + (b3 - 0x80) as int
  }

  /** Decodes a whole byte string, failing on any ill-formed sequence. */
  function Decode(s: seq<Byte>): (r: Option<string>)
    decreases |s|
  {
    if |s| == 0 then
      Some([])
    else
      match DecodeScalar(s)
      case None => None
      case Some((c, n)) =>
        match Decode(s[n..])
        case None => None
        case Some(t) => Some([c] + t)
  }

  /** Splitting a code point into 6-bit groups and joining them again gives it back. */
  lemma SixBitGroups(v: nat)
    ensures v == (v / 0x40) * 0x40 + v % 0x40
    ensures v / 0x40 == (v / 0x1000) * 0x40 + (v / 0x40) % 0x40
    ensures v / 0x1000 == (v / 0x40000) * 0x40 + (v / 0x1000) % 0x40
  {
  }

  /** The decoder reads back exactly the scalar value the encoder wrote, whatever follows it. */
  lemma DecodeEncodeScalar(c: char, rest: seq<Byte>)
    ensures DecodeScalar(EncodeScalar(c) + rest) == Some((c, |EncodeScalar(c)|))
  {
    var v := c as int;
    if v < 0x80 {
    } else if v < 0x800 {
      DecodeTwoBytes(c, rest);
    } else if v < 0x10000 {
      DecodeThreeBytes(c, rest);
    } else {
      DecodeFourBytes(c, rest);
    }
  }

  /** Reading back a two-byte encoding. */
  lemma DecodeTwoBytes(c: char, rest: seq<Byte>)
    requires 0x80 <= c as int < 0x800
    ensures DecodeScalar(EncodeScalar(c) + rest) == Some((c, 2))
  {
    var v := c as int;
    var s := EncodeScalar(c) + rest;
    SixBitGroups(v);
    assert s[0] == 0xC0 + v / 0x40 && s[1] == 0x80 + v % 0x40;
    assert Payload2(s[0], s[1]) == v;
  }

  /** Reading back a three-byte encoding. */
  lemma DecodeThreeBytes(c: char, rest: seq<Byte>)
    requires 0x800 <= c as int < 0x10000
    ensures DecodeScalar(EncodeScalar(c) + rest) == Some((c, 3))
  {
    var v := c as int;
    var s := EncodeScalar(c) + rest;
    SixBitGroups(v);
    assert s[0] == 0xE0 + v / 0x1000 && s[1] == 0x80 + (v / 0x40) % 0x40 && s[2] == 0x80 + v % 0x40;
    assert Payload3(s[0], s[1], s[2]) == v;
  }

  /** Reading back a four-byte encoding. */
  lemma DecodeFourBytes(c: char, rest: seq<Byte>)
    requires 0x10000 <= c as int
    ensures DecodeScalar(EncodeScalar(c) + rest) == Some((c, 4))
  {
    var v := c as int;
    var s := EncodeScalar(c) + rest;
    SixBitGroups(v);
    assert s[0] == 0xF0 + v / 0x40000 && s[1] == 0x80 + (v / 0x1000) % 0x40;
    assert s[2] == 0x80 + (v / 0x40) % 0x40 && s[3] == 0x80 + v % 0x40;
    assert Payload4(s[0], s[1], s[2], s[3]) == v;
  }

  /** Dividing q * 64 + r by 64, for a 6-bit r, gives back q and r. */
  lemma JoinSixBits(q: int, r: int)
    requires 0 <= r < 0x40
    ensures (q * 0x40 + r) / 0x40 == q && (q * 0x40 + r) % 0x40 == r
  {
  }

  /** Re-encoding the code point of a two-byte sequence writes the same two bytes. */
  lemma EncodePayload2(b0: Byte, b1: Byte)
    requires 0xC2 <= b0 <= 0xDF && IsContinuation(b1)
    ensures EncodeScalar(Payload2(b0, b1) as char) == [b0, b1]
  {
    var v := Payload2(b0, b1);
    JoinSixBits(b0 - 0xC0, b1 - 0x80);
    assert v / 0x40 == b0 - 0xC0 && v % 0x40 == b1 - 0x80;
  }

  /** Re-encoding the code point of an accepted three-byte sequence writes the same three bytes. */
  lemma EncodePayload3(b0: Byte, b1: Byte, b2: Byte)
    requires 0xE0 <= b0 <= 0xEF && IsContinuation(b1) && IsContinuation(b2)
    requires 0x800 <= Payload3(b0, b1, b2) && !(0xD800 <= Payload3(b0, b1, b2) < 0xE000)
    ensures EncodeScalar(Payload3(b0, b1, b2) as char) == [b0, b1, b2]
  {
    var v := Payload3(b0, b1, b2);
    var hi := (b0 - 0xE0) as int * 0x40 + (b1 - 0x80) as int;
    assert v == hi * 0x40 + (b2 - 0x80) as int;
    JoinSixBits(hi, b2 - 0x80);
    JoinSixBits(b0 - 0xE0, b1 - 0x80);
    SixBitGroups(v);
    assert v / 0x40 == hi && v % 0x40 == b2 - 0x80;
    assert (v / 0x40) % 0x40 == b1 - 0x80;
    assert v / 0x1000 == b0 - 0xE0;
  }

  /** Re-encoding the code point of an accepted four-byte sequence writes the same four bytes. */
  lemma EncodePayload4(b0: Byte, b1: Byte, b2: Byte, b3: Byte)
    requires 0xF0 <= b0 <= 0xF4 && IsContinuation(b1) && IsContinuation(b2) && IsContinuation(b3)
    requires 0x10000 <= Payload4(b0, b1, b2, b3) < 0x110000
    ensures EncodeScalar(Payload4(b0, b1, b2, b3) as char) == [b0, b1, b2, b3]
  {
    var v := Payload4(b0, b1, b2, b3);
    var hi := (b0 - 0xF0) as int * 0x40 + (b1 - 0x80) as int;
    var mid := hi * 0x40 + (b2 - 0x80) as int;
    assert v == mid * 0x40 + (b3 - 0x80) as int;
    JoinSixBits(mid, b3 - 0x80);
    JoinSixBits(hi, b2 - 0x80);
    JoinSixBits(b0 - 0xF0, b1 - 0x80);
    SixBitGroups(v);
    assert v / 0x40 == mid && v % 0x40 == b3 - 0x80;
    assert v / 0x1000 == hi && (v / 0x40) % 0x40 == b2 - 0x80;
    assert v / 0x40000 == b0 - 0xF0 && (v / 0x1000) % 0x40 == b1 - 0x80;
  }

  /** The decoder accepts only the encoder's own output for the scalar value it reads. */
  lemma EncodeDecodeScalar(s: seq<Byte>)
    requires DecodeScalar(s).Some?
    ensures EncodeScalar(DecodeScalar(s).value.0) == s[..DecodeScalar(s).value.1]
  {
    if s[0] < 0x80 {
    } else if s[0] <= 0xDF {
      EncodePayload2(s[0], s[1]);
    } else if s[0] <= 0xEF {
      EncodePayload3(s[0], s[1], s[2]);
    } else {
      EncodePayload4(s[0], s[1], s[2], s[3]);
    }
  }

  /** Encoding distributes over concatenation. */
  lemma {:induction false} EncodeAppend(s: string, t: string)
    ensures Encode(s + t) == Encode(s) + Encode(t)
  {
    if |s| > 0 {
      var st := s + t;
      assert st[0] == s[0] && st[1..] == s[1..] + t;
      assert Encode(st) == EncodeScalar(s[0]) + Encode(s[1..] + t);
      EncodeAppend(s[1..], t);
      assert Encode(s) == EncodeScalar(s[0]) + Encode(s[1..]);
    } else {
      assert s + t == t;
    }
  }

  /** One step of the decoder: the first scalar value, then the rest. */
  lemma DecodeStep(b: seq<Byte>)
    requires DecodeScalar(b).Some?
    ensures var c, n := DecodeScalar(b).value.0, DecodeScalar(b).value.1;
      Decode(b) == if Decode(b[n..]).Some? then Some([c] + Decode(b[n..]).value) else None
  {
  }

  /** Round trip: decoding the UTF-8 encoding of any string gives the string back. */
  lemma {:induction false} DecodeEncode(s: string)
    ensures Decode(Encode(s)) == Some(s)
  {
    if |s| > 0 {
      var e, rest := EncodeScalar(s[0]), Encode(s[1..]);
      assert Encode(s) == e + rest;
      DecodeEncodeScalar(s[0], rest);
      assert (e + rest)[|e|..] == rest;
      DecodeEncode(s[1..]);
      DecodeStep(e + rest);
      assert [s[0]] + s[1..] == s;
    }
  }

  /** Round trip the other way: a byte string the decoder accepts is the encoding of what it decodes to. */
  lemma {:induction false} EncodeDecode(b: seq<Byte>)
    requires Decode(b).Some?
    ensures Encode(Decode(b).value) == b
    decreases |b|
  {
    if |b| > 0 {
      var first := DecodeScalar(b).value;
      var c, n := first.0, first.1;
      DecodeStep(b);
      var t := Decode(b[n..]).value;
      EncodeDecodeScalar(b);
      EncodeDecode(b[n..]);
      EncodeCons(c, t);
      assert b == b[..n] + b[n..];
    }
  }

  /** Encoding a string is encoding its first scalar value, then the rest. */
  lemma EncodeCons(c: char, t: string)
    ensures Encode([c] + t) == EncodeScalar(c) + Encode(t)
  {
    assert ([c] + t)[1..] == t;
  }

  /** UTF-8 is injective: different strings never share an encoding. */
  lemma EncodeInjective(s: string, t: string)
    requires Encode(s) == Encode(t)
    ensures s == t
  {
    DecodeEncode(s);
    DecodeEncode(t);
  }

  /** An ASCII string is encoded byte for byte: one byte per character, of the character's value. */
  lemma {:induction false} EncodeAscii(s: string)
    requires forall i :: 0 <= i < |s| ==> IsAscii(s[i])
    ensures |Encode(s)| == |s|
    ensures forall i :: 0 <= i < |s| ==> Encode(s)[i] == s[i] as int
  {
    if |s| > 0 {
      EncodeAscii(s[1..]);
      assert Encode(s) == [s[0] as int] + Encode(s[1..]);
    }
  }
}
