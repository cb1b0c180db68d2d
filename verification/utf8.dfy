/**
 * UTF-8, the encoding Python's `str.encode()` applies by default. The
 * scanner turns its HTTP request text into bytes with it before `sendall`.
 *
 * Dafny's `char` ranges over Unicode scalar values (no lone surrogates), so
 * encoding is total here. `Decode` is the strict inverse: it accepts exactly
 * the shortest-form encodings and rejects everything else.
 */
module Utf8 {
  import opened Wrappers

  /** One octet on the wire. */
  type byte = b: int | 0 <= b < 0x100

  /** A byte of the form 10xxxxxx, which only ever follows a leading byte. */
  predicate IsContinuation(b: byte) {
    0x80 <= b < 0xC0
  }

  /** The six payload bits of a continuation byte. */
  function Payload(b: byte): int {
    b as int - 0x80
  }

  /** The one to four bytes that encode `c`. */
  function EncodeChar(c: char): (r: seq<byte>)
    ensures 1 <= |r| <= 4
    ensures !IsContinuation(r[0])
    ensures forall i :: 1 <= i < |r| ==> IsContinuation(r[i])
    ensures |r| == 1 <==> (c as int) < 0x80
    ensures |r| == 1 ==> r[0] == c as int
  {
    var n := c as int;
    if n < 0x80 then
      [n]
    else if n < 0x800 then
      [0xC0 + n / 0x40, 0x80 + n % 0x40]
    else if n < 0x1_0000 then
      [0xE0 + n / 0x1000, 0x80 + n / 0x40 % 0x40, 0x80 + n % 0x40]
    else
      [0xF0 + n / 0x4_0000, 0x80 + n / 0x1000 % 0x40, 0x80 + n / 0x40 % 0x40, 0x80 + n % 0x40]
  }

  /** The UTF-8 encoding of a whole string: the characters' encodings in order. */
  function Encode(s: string): (r: seq<byte>)
    ensures |s| <= |r| <= 4 * |s|
    ensures |s| > 0 ==> !IsContinuation(r[0])
  {
    if |s| == 0 then [] else EncodeChar(s[0]) + Encode(s[1..])
  }

  /** True when every character of `s` is 7-bit ASCII. */
  predicate IsAscii(s: string) {
    forall i :: 0 <= i < |s| ==> (s[i] as int) < 0x80
  }

  /**
   * Decodes the character at the head of `bs`, with the number of bytes it
   * occupies; `None` for a truncated, overlong, surrogate or out-of-range
   * sequence.
   */
  function DecodeFirst(bs: seq<byte>): (r: Option<(char, nat)>)
    requires |bs| > 0
    ensures r.Some? ==> 1 <= r.value.1 <= |bs| && r.value.1 <= 4
  {
    var b0: int := bs[0];
    if b0 < 0x80 then
      Some((b0 as char, 1))
    else if 0xC2 <= b0 < 0xE0 && |bs| >= 2 && IsContinuation(bs[1]) then
      var n := (b0 - 0xC0) * 0x40 + Payload(bs[1]);
      Some((n as char, 2))
    else if 0xE0 <= b0 < 0xF0 && |bs| >= 3 && IsContinuation(bs[1]) && IsContinuation(bs[2]) then
      var n := (b0 - 0xE0) * 0x1000 + Payload(bs[1]) * 0x40 + Payload(bs[2]);
      if 0x800 <= n && !(0xD800 <= n < 0xE000) then Some((n as char, 3)) else None
    else if 0xF0 <= b0 < 0xF5 && |bs| >= 4
            && IsContinuation(bs[1]) && IsContinuation(bs[2]) && IsContinuation(bs[3]) then
      var n := (b0 - 0xF0) * 0x4_0000 + Payload(bs[1]) * 0x1000 + Payload(bs[2]) * 0x40 + Payload(bs[3]);
      if 0x1_0000 <= n < 0x11_0000 then Some((n as char, 4)) else None
    else
      None
  }

  /** Decodes a whole byte string, or `None` when it is not well-formed UTF-8. */
  function Decode(bs: seq<byte>): (r: Option<string>)
    ensures r.Some? ==> |r.value| <= |bs|
    decreases |bs|
  {
    if |bs| == 0 then Some([])
    else match DecodeFirst(bs)
      case None => None
      case Some((c, k)) =>
        match Decode(bs[k..])
        case None => None
        case Some(rest) => Some([c] + rest)
  }

  /** Encoding distributes over concatenation. */
  lemma {:induction false} EncodeAppend(a: string, b: string)
    ensures Encode(a + b) == Encode(a) + Encode(b)
    decreases |a|
  {
    if |a| == 0 {
      assert a + b == b;
    } else {
      assert (a + b)[0] == a[0];
      assert (a + b)[1..] == a[1..] + b;
      EncodeAppend(a[1..], b);
    }
  }

  /** An ASCII string is sent byte for byte: each byte is the character's code. */
  lemma {:induction false} EncodeAscii(s: string)
    requires IsAscii(s)
    ensures |Encode(s)| == |s|
    ensures forall i :: 0 <= i < |s| ==> Encode(s)[i] == s[i] as int
    decreases |s|
  {
    if |s| > 0 {
      assert IsAscii(s[1..]) by {
        forall i | 0 <= i < |s[1..]| ensures (s[1..][i] as int) < 0x80 {
          assert s[1..][i] == s[i + 1];
        }
      }
      EncodeAscii(s[1..]);
      assert (s[0] as int) < 0x80;
      forall i | 0 <= i < |s| ensures Encode(s)[i] == s[i] as int {
        if i > 0 {
          assert Encode(s)[i] == Encode(s[1..])[i - 1];
          assert s[1..][i - 1] == s[i];
        }
      }
    }
  }

  /** Decoding the head of a character's encoding gives back that character. */
  lemma DecodeFirstEncodeChar(c: char, rest: seq<byte>)
    ensures DecodeFirst(EncodeChar(c) + rest) == Some((c, |EncodeChar(c)|))
  {
    var n := c as int;
    var bs := EncodeChar(c) + rest;
    if n < 0x80 {
    } else if n < 0x800 {
      DecodeFirstTwo(c, bs);
    } else if n < 0x1_0000 {
      DecodeFirstThree(c, bs);
    } else {
      DecodeFirstFour(c, bs);
    }
  }

  // One lemma per encoding width keeps each arithmetic obligation small.

  lemma DecodeFirstTwo(c: char, bs: seq<byte>)
    requires 0x80 <= c as int < 0x800
    requires |bs| >= 2 && bs[..2] == EncodeChar(c)
    ensures DecodeFirst(bs) == Some((c, 2))
  {
    var n := c as int;
    assert bs[0] == 0xC0 + n / 0x40 && bs[1] == 0x80 + n % 0x40;
    assert (bs[0] as int - 0xC0) * 0x40 + Payload(bs[1]) == n;
  }

  lemma DecodeFirstThree(c: char, bs: seq<byte>)
    requires 0x800 <= c as int < 0x1_0000
    requires |bs| >= 3 && bs[..3] == EncodeChar(c)
    ensures DecodeFirst(bs) == Some((c, 3))
  {
    var n := c as int;
    assert bs[0] == 0xE0 + n / 0x1000;
    assert bs[1] == 0x80 + n / 0x40 % 0x40 && bs[2] == 0x80 + n % 0x40;
    assert n / 0x40 == (n / 0x1000) * 0x40 + n / 0x40 % 0x40;
    assert (bs[0] as int - 0xE0) * 0x1000 + Payload(bs[1]) * 0x40 + Payload(bs[2]) == n;
  }

  lemma DecodeFirstFour(c: char, bs: seq<byte>)
    requires 0x1_0000 <= c as int
    requires |bs| >= 4 && bs[..4] == EncodeChar(c)
    ensures DecodeFirst(bs) == Some((c, 4))
  {
    var n := c as int;
    assert bs[0] == 0xF0 + n / 0x4_0000;
    assert bs[1] == 0x80 + n / 0x1000 % 0x40;
    assert bs[2] == 0x80 + n / 0x40 % 0x40 && bs[3] == 0x80 + n % 0x40;
    assert n / 0x1000 == (n / 0x4_0000) * 0x40 + n / 0x1000 % 0x40;
    assert n / 0x40 == (n / 0x1000) * 0x40 + n / 0x40 % 0x40;
    assert (bs[0] as int - 0xF0) * 0x4_0000 + Payload(bs[1]) * 0x1000
           + Payload(bs[2]) * 0x40 + Payload(bs[3]) == n;
  }

  /** What `DecodeFirst` accepts is exactly one character's encoding. */
  lemma DecodeFirstCanonical(bs: seq<byte>)
    requires |bs| > 0 && DecodeFirst(bs).Some?
    ensures EncodeChar(DecodeFirst(bs).value.0) == bs[..DecodeFirst(bs).value.1]
  {
    var (c, k) := DecodeFirst(bs).value;
    var n := c as int;
    var b0: int := bs[0];
    if k == 2 {
      var p1 := Payload(bs[1]);
      assert n == (b0 - 0xC0) * 0x40 + p1;
      assert n / 0x40 == b0 - 0xC0 && n % 0x40 == p1;
    } else if k == 3 {
      var p1, p2 := Payload(bs[1]), Payload(bs[2]);
      assert n == (b0 - 0xE0) * 0x1000 + p1 * 0x40 + p2;
      assert n / 0x40 == (b0 - 0xE0) * 0x40 + p1 && n % 0x40 == p2;
      assert n / 0x1000 == b0 - 0xE0 && n / 0x40 % 0x40 == p1;
    } else if k == 4 {
      var p1, p2, p3 := Payload(bs[1]), Payload(bs[2]), Payload(bs[3]);
      assert n == (b0 - 0xF0) * 0x4_0000 + p1 * 0x1000 + p2 * 0x40 + p3;
      assert n / 0x40 == ((b0 - 0xF0) * 0x40 + p1) * 0x40 + p2 && n % 0x40 == p3;
      assert n / 0x1000 == (b0 - 0xF0) * 0x40 + p1 && n / 0x40 % 0x40 == p2;
      assert n / 0x4_0000 == b0 - 0xF0 && n / 0x1000 % 0x40 == p1;
    }
  }

  /** Decoding undoes encoding, for every string. */
  lemma {:induction false} DecodeEncode(s: string)
    ensures Decode(Encode(s)) == Some(s)
    decreases |s|
  {
    if |s| > 0 {
      var head := EncodeChar(s[0]);
      var tail := Encode(s[1..]);
      assert Encode(s) == head + tail;
      DecodeFirstEncodeChar(s[0], tail);
      assert (head + tail)[|head|..] == tail;
      DecodeEncode(s[1..]);
      assert [s[0]] + s[1..] == s;
    }
  }

  /** Whatever `Decode` accepts re-encodes to the very same bytes. */
  lemma {:induction false} EncodeDecode(bs: seq<byte>)
    requires Decode(bs).Some?
    ensures Encode(Decode(bs).value) == bs
    decreases |bs|
  {
    if |bs| > 0 {
      var (c, k) := DecodeFirst(bs).value;
      DecodeFirstCanonical(bs);
      EncodeDecode(bs[k..]);
      var s := Decode(bs).value;
      assert s == [c] + Decode(bs[k..]).value;
      assert s[0] == c && s[1..] == Decode(bs[k..]).value;
      assert bs == bs[..k] + bs[k..];
    }
  }

  /** `Decode` is the exact inverse of `Encode`: it accepts a byte string iff it is some string's encoding. */
  lemma DecodeIffEncode(bs: seq<byte>, s: string)
    ensures Decode(bs) == Some(s) <==> Encode(s) == bs
  {
    if Decode(bs) == Some(s) {
      EncodeDecode(bs);
    }
    if Encode(s) == bs {
      DecodeEncode(s);
    }
  }
}
