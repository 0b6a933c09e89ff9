/**
 * Base 16 as in RFC 4648, section 8, with the lowercase alphabet on output,
 * and the lenient decoder of Node.js `Buffer.from(s, "hex")`.
 */
module Hex {
  import opened Wrappers
  import opened Bytes
  import Strings

  /** A character of the lowercase base 16 alphabet. */
  predicate IsLowerHexDigit(c: char) {
    '0' <= c <= '9' || 'a' <= c <= 'f'
  }

  /** The lowercase digit of a nibble: `0`-`9`, then `a`-`f`. */
  function Digit(d: int): (c: char)
    requires 0 <= d < 16
    ensures IsLowerHexDigit(c)
  {
    if d < 10 then ('0' as int + d) as char else ('a' as int + d - 10) as char
  }

  /**
   * The value of one hexadecimal digit as Node.js reads it, for ASCII
   * characters: both cases are accepted, any other ASCII character is not a
   * digit. (The pipeline only ever decodes ASCII hex.)
   */
  function NibbleValue(c: char): (r: Option<int>)
    ensures r.Some? ==> 0 <= r.value < 16
    ensures r.Some? <==> IsLowerHexDigit(c) || 'A' <= c <= 'F'
  {
    if '0' <= c <= '9' then Some(c as int - '0' as int)
    else if 'a' <= c <= 'f' then Some(c as int - 'a' as int + 10)
    else if 'A' <= c <= 'F' then Some(c as int - 'A' as int + 10)
    else None
  }

  /** Reading a lowercase digit gives back the nibble it was written from. */
  lemma NibbleOfDigit(d: int)
    requires 0 <= d < 16
    ensures NibbleValue(Digit(d)) == Some(d)
  {
  }

  /** Writing the value of a lowercase digit gives back the digit. */
  lemma DigitOfNibble(c: char)
    requires IsLowerHexDigit(c)
    ensures Digit(NibbleValue(c).value) == c
  {
  }

  /** A string of lowercase hexadecimal digits. */
  predicate IsLowerHex(s: string) {
    forall i :: 0 <= i < |s| ==> IsLowerHexDigit(s[i])
  }

  /**
   * `Buffer.toString("hex")`: each byte becomes two lowercase digits, the
   * high nibble first.
   */
  function ToHex(b: seq<Byte>): (r: string)
    ensures |r| == 2 * |b|
    ensures IsLowerHex(r)
  {
    if |b| == 0 then
      []
    else
      var rest := ToHex(b[1..]);
      var r := [Digit(b[0] / 16), Digit(b[0] % 16)] + rest;
      assert forall i :: 2 <= i < |r| ==> r[i] == rest[i - 2];
      r
  }

  /** Characters 2i and 2i+1 of the rendering are the digits of the high and the low nibble of byte i. */
  lemma {:induction false} ToHexAt(b: seq<Byte>, i: nat)
    requires i < |b|
    ensures NibbleValue(ToHex(b)[2 * i]) == Some(b[i] / 16)
    ensures NibbleValue(ToHex(b)[2 * i + 1]) == Some(b[i] % 16)
  {
    if i == 0 {
      NibbleOfDigit(b[0] / 16);
      NibbleOfDigit(b[0] % 16);
    } else {
      ToHexAt(b[1..], i - 1);
      assert ToHex(b)[2..] == ToHex(b[1..]);
    }
  }

  /**
   * `Buffer.from(s, "hex")`: digits are read two at a time, and decoding
   * stops, keeping what it has, at the first pair that is not two digits; a
   * lone digit at the end is dropped.
   */
  function FromHex(s: string): (r: seq<Byte>)
    ensures |r| <= |s| / 2
  {
    if |s| < 2 then
      []
    else
      match (NibbleValue(s[0]), NibbleValue(s[1]))
      case (Some(hi), Some(lo)) => [hi * 16 + lo] + FromHex(s[2..])
      case _ => []
  }

  /** Round trip: decoding the hex rendering of bytes gives the bytes back. */
  lemma {:induction false} FromHexToHex(b: seq<Byte>)
    ensures FromHex(ToHex(b)) == b
  {
    if |b| > 0 {
      var h := ToHex(b);
      assert h[2..] == ToHex(b[1..]);
      FromHexToHex(b[1..]);
      assert h[0] == Digit(b[0] / 16) && h[1] == Digit(b[0] % 16);
      NibbleOfDigit(b[0] / 16);
      NibbleOfDigit(b[0] % 16);
      assert [b[0]] + b[1..] == b;
    }
  }

  /**
   * Round trip the other way: an even-length lowercase hex string is decoded
   * completely, and rendering the result gives the string back.
   */
  lemma {:induction false} ToHexFromHex(s: string)
    requires |s| % 2 == 0 && IsLowerHex(s)
    ensures |FromHex(s)| == |s| / 2
    ensures ToHex(FromHex(s)) == s
  {
    if |s| > 0 {
      assert IsLowerHex(s[2..]) by {
        forall i | 0 <= i < |s| - 2
          ensures IsLowerHexDigit(s[2..][i])
        {
          assert s[2..][i] == s[i + 2];
        }
      }
      ToHexFromHex(s[2..]);
      ToHexFromHexStep(s);
    }
  }

  /** One step of the round trip: two leading digits in front of a tail that round-trips. */
  lemma ToHexFromHexStep(s: string)
    requires |s| >= 2 && IsLowerHexDigit(s[0]) && IsLowerHexDigit(s[1])
    requires ToHex(FromHex(s[2..])) == s[2..]
    ensures |FromHex(s)| == |s| / 2
    ensures ToHex(FromHex(s)) == s
  {
    var hi, lo := NibbleValue(s[0]).value, NibbleValue(s[1]).value;
    var tail := FromHex(s[2..]);
    FromHexCons(s);
    DigitOfNibble(s[0]);
    DigitOfNibble(s[1]);
    assert FromHex(s) == [hi * 16 + lo] + tail;
    RenderCons(s, hi, lo, tail);
  }

  /** Rendering the byte of two nibbles and a tail, when the pieces match the digits of s, gives s. */
  lemma RenderCons(s: string, hi: int, lo: int, tail: seq<Byte>)
    requires 0 <= hi < 16 && 0 <= lo < 16
    requires |s| >= 2 && Digit(hi) == s[0] && Digit(lo) == s[1]
    requires ToHex(tail) == s[2..]
    ensures ToHex([hi * 16 + lo] + tail) == s
  {
    var x: Byte := hi * 16 + lo;
    JoinNibbles(hi, lo);
    ToHexCons(x, tail);
    assert [s[0], s[1]] + s[2..] == s;
  }

  /** Two leading digits decode to one byte in front of the decoding of the rest. */
  lemma FromHexCons(s: string)
    requires |s| >= 2 && NibbleValue(s[0]).Some? && NibbleValue(s[1]).Some?
    ensures FromHex(s) == [NibbleValue(s[0]).value * 16 + NibbleValue(s[1]).value] + FromHex(s[2..])
  {
  }

  /** Rendering a byte in front of others puts its two digits in front. */
  lemma ToHexCons(x: Byte, t: seq<Byte>)
    ensures ToHex([x] + t) == [Digit(x / 16), Digit(x % 16)] + ToHex(t)
  {
    assert ([x] + t)[1..] == t;
  }

  /** A byte built from two nibbles splits back into them. */
  lemma JoinNibbles(hi: int, lo: int)
    requires 0 <= hi < 16 && 0 <= lo < 16
    ensures (hi * 16 + lo) / 16 == hi && (hi * 16 + lo) % 16 == lo
  {
  }

  /** Rendering distributes over concatenation. */
  lemma {:induction false} ToHexAppend(a: seq<Byte>, b: seq<Byte>)
    ensures ToHex(a + b) == ToHex(a) + ToHex(b)
  {
    if |a| > 0 {
      assert (a + b)[1..] == a[1..] + b;
      ToHexAppend(a[1..], b);
    } else {
      assert a + b == b;
    }
  }

  /** k zero bytes are rendered as 2k zero digits. */
  lemma {:induction false} ToHexZeros(k: nat)
    ensures ToHex(Zeros(k)) == Strings.Repeat('0', 2 * k)
  {
    if k > 0 {
      ToHexZeros(k - 1);
      assert Zeros(k)[1..] == Zeros(k - 1);
    }
  }

  /** Decoding stops at the first pair that is not two digits. */
  lemma {:induction false} FromHexStopsAtBadPair(s: string, k: nat)
    requires 2 * k + 2 <= |s|
    requires forall i :: 0 <= i < 2 * k ==> NibbleValue(s[i]).Some?
    requires NibbleValue(s[2 * k]).None? || NibbleValue(s[2 * k + 1]).None?
    ensures FromHex(s) == FromHex(s[..2 * k])
    decreases k
  {
    if k > 0 {
      assert s[2..][..2 * (k - 1)] == s[..2 * k][2..];
      FromHexStopsAtBadPair(s[2..], k - 1);
    }
  }

  /** A lone digit after an even-length prefix is dropped: it adds no byte. */
  lemma {:induction false} FromHexOddTail(s: string, c: char)
    requires |s| % 2 == 0
    ensures FromHex(s + [c]) == FromHex(s)
    decreases |s|
  {
    if |s| >= 2 {
      assert (s + [c])[2..] == s[2..] + [c];
      FromHexOddTail(s[2..], c);
    }
  }
}
