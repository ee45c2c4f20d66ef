/**
 * UTF-8 as Node's `Buffer` applies it: `Buffer.from(s, "utf8")` encodes each
 * Unicode scalar value of `s` (section 3 of RFC 3629), and `buf.toString("utf8")`
 * decodes leniently, putting one U+FFFD for each maximal ill-formed subpart
 * (the decoder of the WHATWG Encoding Standard, which V8 implements).
 */
module Utf8 {
  import opened Basics

  /** The character the decoder puts in place of ill-formed input. */
  const Replacement: char := '\U{FFFD}'

  /** The UTF-8 encoding of one scalar value: one to four bytes. */
  function EncodeChar(c: char): (r: seq<byte>)
    ensures 1 <= |r| <= 4
    ensures (c as int < 0x80) == (|r| == 1)
  {
    var n := c as int;
    if n < 0x80 then [n]
    else if n < 0x800 then [0xC0 + n / 64, 0x80 + n % 64]
    else if n < 0x1_0000 then [0xE0 + n / 4096, 0x80 + n / 64 % 64, 0x80 + n % 64]
    else [0xF0 + n / 262144, 0x80 + n / 4096 % 64, 0x80 + n / 64 % 64, 0x80 + n % 64]
  }

  /** The UTF-8 encoding of a string: the encodings of its characters, in order. */
  function Encode(s: string): (r: seq<byte>)
    ensures |s| <= |r| <= 4 * |s|
  {
    if s == [] then [] else EncodeChar(s[0]) + Encode(s[1..])
  }

  /** Whether every character of `s` is ASCII. */
  predicate IsAscii(s: string) {
    forall i :: 0 <= i < |s| ==> s[i] as int < 0x80
  }

  /** How many continuation bytes a sequence led by `lead` needs; 0 if `lead` cannot lead one. */
  function TrailCount(lead: byte): (k: nat)
    ensures k <= 3
  {
    if 0xC2 <= lead <= 0xDF then 1
    else if 0xE0 <= lead <= 0xEF then 2
    else if 0xF0 <= lead <= 0xF4 then 3
    else 0
  }

  /** Range allowed for the first continuation byte after `lead` (it excludes overlong forms, surrogates and values above U+10FFFF). */
  function LowerBound(lead: byte): byte {
    if lead == 0xE0 then 0xA0 else if lead == 0xF0 then 0x90 else 0x80
  }

  function UpperBound(lead: byte): byte {
    if lead == 0xED then 0x9F else if lead == 0xF4 then 0x8F else 0xBF
  }

  /** Whether `b[k]` may stand `k` places after the lead byte `b[0]`. */
  predicate ContinuesAt(b: seq<byte>, k: nat)
    requires 1 <= k < |b|
  {
    if k == 1 then LowerBound(b[0]) <= b[1] <= UpperBound(b[0]) else 0x80 <= b[k] <= 0xBF
  }

  /** How many bytes after the lead byte `b[0]` continue its sequence, up to the number it needs. */
  function ValidTrail(b: seq<byte>): (m: nat)
    requires |b| >= 1
    ensures m <= TrailCount(b[0]) && m < |b|
    ensures forall k :: 1 <= k <= m ==> ContinuesAt(b, k)
    ensures m < TrailCount(b[0]) ==> m + 1 == |b| || !ContinuesAt(b, m + 1)
  {
    var need := TrailCount(b[0]);
    if need == 0 || |b| < 2 || !ContinuesAt(b, 1) then 0
    else if need == 1 || |b| < 3 || !ContinuesAt(b, 2) then 1
    else if need == 2 || |b| < 4 || !ContinuesAt(b, 3) then 2
    else 3
  }

  /** The scalar value a complete multi-byte sequence at the head of `b` stands for. */
  function ScalarOf(b: seq<byte>): (n: int)
    requires |b| >= 1 && TrailCount(b[0]) >= 1 && ValidTrail(b) == TrailCount(b[0])
    ensures 0x80 <= n < 0xD800 || 0xE000 <= n < 0x11_0000
  {
    var need := TrailCount(b[0]);
    assert ContinuesAt(b, 1);
    if need == 1 then (b[0] as int - 0xC0) * 64 + (b[1] - 0x80)
    else if need == 2 then
      assert ContinuesAt(b, 2);
      (b[0] as int - 0xE0) * 4096 + (b[1] as int - 0x80) * 64 + (b[2] - 0x80)
    else
      assert ContinuesAt(b, 2) && ContinuesAt(b, 3);
      (b[0] as int - 0xF0) * 262144 + (b[1] as int - 0x80) * 4096 + (b[2] as int - 0x80) * 64 + (b[3] - 0x80)
  }

  /**
   * Lenient decoding: a well-formed sequence gives its scalar value; a byte that
   * cannot lead a sequence, or a sequence cut short, gives one U+FFFD, and the
   * byte that broke the sequence is read again as a possible lead byte.
   */
  function Decode(b: seq<byte>): (s: string)
    ensures |s| <= |b|
    decreases |b|
  {
    if b == [] then []
    else if b[0] < 0x80 then [b[0] as char] + Decode(b[1..])
    else if TrailCount(b[0]) == 0 then [Replacement] + Decode(b[1..])
    else
      var m := ValidTrail(b);
      if m < TrailCount(b[0]) then [Replacement] + Decode(b[1 + m..])
      else [ScalarOf(b) as char] + Decode(b[1 + m..])
  }

  /** Decoding reads one encoded character back off the front of any byte sequence. */
  lemma DecodeEncodeChar(c: char, rest: seq<byte>)
    ensures Decode(EncodeChar(c) + rest) == [c] + Decode(rest)
  {
    var n := c as int;
    if n < 0x80 {
      assert (EncodeChar(c) + rest)[1..] == rest;
    } else if n < 0x800 {
      DecodeTwoBytes(c, rest);
    } else if n < 0x1_0000 {
      DecodeThreeBytes(c, rest);
    } else {
      DecodeFourBytes(c, rest);
    }
  }

  lemma DecodeTwoBytes(c: char, rest: seq<byte>)
    requires 0x80 <= c as int < 0x800
    ensures Decode(EncodeChar(c) + rest) == [c] + Decode(rest)
  {
    var n := c as int;
    var hi, lo := n / 64, n % 64;
    var b := [0xC0 + hi, 0x80 + lo] + rest;
    assert EncodeChar(c) + rest == b;
    assert n == hi * 64 + lo;
    assert TrailCount(b[0]) == 1 && ContinuesAt(b, 1);
    assert ValidTrail(b) == 1;
    assert ScalarOf(b) == n;
    assert b[2..] == rest;
  }

  lemma DecodeThreeBytes(c: char, rest: seq<byte>)
    requires 0x800 <= c as int < 0x1_0000
    ensures Decode(EncodeChar(c) + rest) == [c] + Decode(rest)
  {
    var n := c as int;
    var hi, mid, lo := n / 4096, n / 64 % 64, n % 64;
    assert n == hi * 4096 + mid * 64 + lo by {
      assert n / 64 == hi * 64 + mid;
    }
    var b := [0xE0 + hi, 0x80 + mid, 0x80 + lo] + rest;
    assert EncodeChar(c) + rest == b;
    assert TrailCount(b[0]) == 2 && ContinuesAt(b, 1) && ContinuesAt(b, 2);
    assert ValidTrail(b) == 2;
    assert ScalarOf(b) == n;
    assert b[3..] == rest;
  }

  lemma DecodeFourBytes(c: char, rest: seq<byte>)
    requires 0x1_0000 <= c as int
    ensures Decode(EncodeChar(c) + rest) == [c] + Decode(rest)
  {
    var n := c as int;
    var top, hi, mid, lo := n / 262144, n / 4096 % 64, n / 64 % 64, n % 64;
    assert n == top * 262144 + hi * 4096 + mid * 64 + lo by {
      assert n / 64 == n / 4096 * 64 + mid;
      assert n / 4096 == top * 64 + hi;
    }
    var b := [0xF0 + top, 0x80 + hi, 0x80 + mid, 0x80 + lo] + rest;
    assert EncodeChar(c) + rest == b;
    assert TrailCount(b[0]) == 3 && ContinuesAt(b, 1) && ContinuesAt(b, 2) && ContinuesAt(b, 3);
    assert ValidTrail(b) == 3;
    assert ScalarOf(b) == n;
    assert b[4..] == rest;
  }

  /** Round trip: decoding the encoding of any string gives the string back. */
  lemma {:induction false} DecodeEncode(s: string)
    ensures Decode(Encode(s)) == s
  {
    if s != [] {
      calc {
        Decode(Encode(s));
        Decode(EncodeChar(s[0]) + Encode(s[1..]));
        { DecodeEncodeChar(s[0], Encode(s[1..])); }
        [s[0]] + Decode(Encode(s[1..]));
        { DecodeEncode(s[1..]); }
        [s[0]] + s[1..];
        s;
      }
    }
  }

  /** The encoding is injective, so distinct strings never share their bytes. */
  lemma EncodeInjective(s: string, t: string)
    requires Encode(s) == Encode(t)
    ensures s == t
  {
    DecodeEncode(s);
    DecodeEncode(t);
  }

  /** On ASCII text the encoding is the identity: one byte per character, holding its code. */
  lemma {:induction false} EncodeAscii(s: string)
    requires IsAscii(s)
    ensures |Encode(s)| == |s|
    ensures forall i :: 0 <= i < |s| ==> Encode(s)[i] == s[i] as int
  {
    if s != [] {
      assert IsAscii(s[1..]) by {
        forall i | 0 <= i < |s[1..]| ensures s[1..][i] as int < 0x80 {
          assert s[1..][i] == s[i + 1];
        }
      }
      EncodeAscii(s[1..]);
      assert s[0] as int < 0x80;
    }
  }
}
