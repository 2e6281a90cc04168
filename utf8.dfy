/**
 * UTF-8 encoding of a string, as `Buffer.from(text, 'utf8')` produces it.
 * Only the length of the encoding is used by the request shaping; the
 * decoder is here to pin the encoder down as an injective, standard one.
 */
module Utf8 {

  import opened Wrappers

  newtype byte = x: int | 0 <= x < 256

  /** Number of bytes UTF-8 uses for a code point. */
  function Width(c: char): (n: nat)
    ensures 1 <= n <= 4
  {
    var v := c as int;
    if v < 0x80 then 1 else if v < 0x800 then 2 else if v < 0x10000 then 3 else 4
  }

  /** Continuation byte carrying the six bits of `v` starting at bit log2(unit). */
  function Continuation(v: nat, unit: nat): byte
    requires unit == 1 || unit == 64 || unit == 4096
  {
    (0x80 + (v / unit) % 64) as byte
  }

  /** The UTF-8 encoding of one code point (RFC 3629, section 3). */
  function EncodeChar(c: char): (bytes: seq<byte>)
    ensures |bytes| == Width(c)
  {
    var v := c as int;
    if v < 0x80 then [v as byte]
    else if v < 0x800 then [(0xC0 + v / 64) as byte, Continuation(v, 1)]
    else if v < 0x10000 then [(0xE0 + v / 4096) as byte, Continuation(v, 64), Continuation(v, 1)]
    else [(0xF0 + v / 262144) as byte, Continuation(v, 4096), Continuation(v, 64), Continuation(v, 1)]
  }

  /** The code point a UTF-8 sequence for one character stands for, if it is one. */
  function DecodeChar(bytes: seq<byte>): Option<char>
  {
    if |bytes| == 1 && bytes[0] < 0x80 then
      Some(bytes[0] as int as char)
    else if |bytes| == 2 && 0xC0 <= bytes[0] < 0xE0 && IsContinuation(bytes[1]) then
      var v := (bytes[0] as int - 0xC0) * 64 + (bytes[1] as int - 0x80);
      if 0x80 <= v then Some(v as char) else None
    else if |bytes| == 3 && 0xE0 <= bytes[0] < 0xF0 && IsContinuation(bytes[1]) && IsContinuation(bytes[2]) then
      var v := (bytes[0] as int - 0xE0) * 4096 + (bytes[1] as int - 0x80) * 64 + (bytes[2] as int - 0x80);
      if 0x800 <= v < 0xD800 || 0xE000 <= v then Some(v as char) else None
    else if |bytes| == 4 && 0xF0 <= bytes[0] < 0xF5 && IsContinuation(bytes[1]) && IsContinuation(bytes[2]) && IsContinuation(bytes[3]) then
      var v := (bytes[0] as int - 0xF0) * 262144 + (bytes[1] as int - 0x80) * 4096
               + (bytes[2] as int - 0x80) * 64 + (bytes[3] as int - 0x80);
      if 0x10000 <= v < 0x110000 then Some(v as char) else None
    else
      None
  }

  predicate IsContinuation(b: byte) {
    0x80 <= b < 0xC0
  }

  /** Decoding a character's encoding gives the character back. */
  lemma DecodeEncodeChar(c: char)
    ensures DecodeChar(EncodeChar(c)) == Some(c)
  {
    var v := c as int;
    if v < 0x80 {
    } else if v < 0x800 {
      DecodeTwo(v);
    } else if v < 0x10000 {
      DecodeThree(v);
    } else {
      DecodeFour(v);
    }
  }

  lemma DecodeTwo(v: nat)
    requires 0x80 <= v < 0x800
    ensures (0xC0 + v / 64 - 0xC0) * 64 + (Continuation(v, 1) as int - 0x80) == v
  {
    assert (v / 64) * 64 + v % 64 == v;
  }

  lemma DecodeThree(v: nat)
    requires 0x800 <= v < 0x10000
    ensures (0xE0 + v / 4096 - 0xE0) * 4096 + (Continuation(v, 64) as int - 0x80) * 64 + (Continuation(v, 1) as int - 0x80) == v
  {
    assert ((v / 64) % 64) * 64 + v % 64 == v % 4096;
    assert (v / 4096) * 4096 + v % 4096 == v;
  }

  lemma DecodeFour(v: nat)
    requires 0x10000 <= v < 0x110000
    ensures (0xF0 + v / 262144 - 0xF0) * 262144 + (Continuation(v, 4096) as int - 0x80) * 4096
            + (Continuation(v, 64) as int - 0x80) * 64 + (Continuation(v, 1) as int - 0x80) == v
  {
    var q1, d := v / 64, v % 64;
    var q2, c := q1 / 64, q1 % 64;
    var q3, b := q2 / 64, q2 % 64;
    assert v == 64 * q1 + d;
    assert q1 == 64 * q2 + c;
    assert q2 == 64 * q3 + b;
    assert v == 4096 * q2 + (64 * c + d);
    assert v / 4096 == q2;
    assert v == 262144 * q3 + (4096 * b + 64 * c + d);
    assert v / 262144 == q3;
    assert Continuation(v, 1) as int - 0x80 == d;
    assert Continuation(v, 64) as int - 0x80 == c;
    assert Continuation(v, 4096) as int - 0x80 == b;
  }

  /** The UTF-8 encoding of a string: its characters' encodings, in order. */
  function Encode(s: string): (bytes: seq<byte>)
    ensures |s| <= |bytes| <= 4 * |s|
  {
    if s == [] then [] else EncodeChar(s[0]) + Encode(s[1..])
  }

  /** How many bytes the sequence starting with `lead` claims to span; 0 for a byte that cannot start one. */
  function LeadWidth(lead: byte): nat {
    if lead < 0x80 then 1
    else if 0xC0 <= lead < 0xE0 then 2
    else if 0xE0 <= lead < 0xF0 then 3
    else if 0xF0 <= lead < 0xF8 then 4
    else 0
  }

  /** Decodes a whole byte sequence, or None when it is not well-formed UTF-8. */
  function Decode(bytes: seq<byte>): Option<string>
    decreases |bytes|
  {
    if bytes == [] then Some([])
    else
      var w := LeadWidth(bytes[0]);
      if w == 0 || w > |bytes| then None
      else match (DecodeChar(bytes[..w]), Decode(bytes[w..]))
        case (Some(c), Some(rest)) => Some([c] + rest)
        case _ => None
  }

  /** UTF-8 decoding undoes the encoding: no two strings share an encoding. */
  lemma {:induction false} DecodeEncode(s: string)
    ensures Decode(Encode(s)) == Some(s)
    decreases |s|
  {
    if s != [] {
      var head := EncodeChar(s[0]);
      var bytes := Encode(s);
      assert bytes == head + Encode(s[1..]);
      assert LeadWidth(bytes[0]) == |head|;
      assert bytes[..|head|] == head && bytes[|head|..] == Encode(s[1..]);
      DecodeEncodeChar(s[0]);
      DecodeEncode(s[1..]);
      assert [s[0]] + s[1..] == s;
    }
  }

  /** Encoding distributes over concatenation. */
  lemma {:induction false} EncodeAppend(a: string, b: string)
    ensures Encode(a + b) == Encode(a) + Encode(b)
    decreases |a|
  {
    if a == [] {
      assert a + b == b;
    } else {
      assert (a + b)[1..] == a[1..] + b;
      EncodeAppend(a[1..], b);
    }
  }

  /** Text made only of ASCII characters takes one byte per character. */
  lemma {:induction false} EncodeAscii(s: string)
    requires forall k :: 0 <= k < |s| ==> s[k] as int < 0x80
    ensures |Encode(s)| == |s|
    decreases |s|
  {
    if s != [] {
      EncodeAscii(s[1..]);
    }
  }
}
