/**
 * The base64url encoding of section 5 of RFC 4648 (URL- and filename-safe
 * alphabet), without padding, as Node's `buf.toString("base64url")` emits it,
 * and decoding as `Buffer.from(s, "base64url")` performs it: Node's lenient
 * decoder reads the string's UTF-16 code units, each cut to its low byte.
 */
module Base64Url {
  import opened Basics
  import JsString

  /** A 6-bit value, one character of the encoding. */
  type sextet = x: int | 0 <= x < 64

  /** The characters of the URL- and filename-safe alphabet. */
  predicate IsUrlSafe(c: char) {
    'A' <= c <= 'Z' || 'a' <= c <= 'z' || '0' <= c <= '9' || c == '-' || c == '_'
  }

  /** The character that stands for `v` (Table 2 of RFC 4648). */
  function CharOf(v: sextet): (c: char)
    ensures IsUrlSafe(c)
  {
    if v < 26 then ('A' as int + v) as char
    else if v < 52 then ('a' as int + (v - 26)) as char
    else if v < 62 then ('0' as int + (v - 52)) as char
    else if v == 62 then '-'
    else '_'
  }

  /**
   * The value the decoder reads from a character. Like Node's decoder it also
   * takes the standard alphabet's `+` and `/`; any other character has none.
   */
  function ValueOf(c: char): (r: Option<sextet>)
    ensures IsUrlSafe(c) ==> r.Some? && CharOf(r.value) == c
    ensures c == '+' ==> r == Some(62)
    ensures c == '/' ==> r == Some(63)
    ensures r.None? <==> !IsUrlSafe(c) && c != '+' && c != '/'
  {
    if 'A' <= c <= 'Z' then Some(c as int - 'A' as int)
    else if 'a' <= c <= 'z' then Some(c as int - 'a' as int + 26)
    else if '0' <= c <= '9' then Some(c as int - '0' as int + 52)
    else if c == '-' || c == '+' then Some(62)
    else if c == '_' || c == '/' then Some(63)
    else None
  }

  /** Reading a character of the alphabet gives back the value it stands for. */
  lemma ValueOfCharOf(v: sextet)
    ensures ValueOf(CharOf(v)) == Some(v)
  {
  }

  /** The four sextets that carry three bytes, most significant bits first. */
  function GroupToSextets(b0: byte, b1: byte, b2: byte): (x: seq<sextet>)
    ensures |x| == 4
    ensures b2 == 0 ==> x[2] % 4 == 0
    ensures b1 == 0 ==> x[1] % 16 == 0
  {
    [b0 / 4, b0 % 4 * 16 + b1 / 16, b1 % 16 * 4 + b2 / 64, b2 % 64]
  }

  /** The three bytes that four sextets carry. */
  function GroupToBytes(s0: sextet, s1: sextet, s2: sextet, s3: sextet): (b: seq<byte>)
    ensures |b| == 3
  {
    [s0 as int * 4 + s1 / 16, s1 as int % 16 * 16 + s2 / 4, s2 as int % 4 * 64 + s3]
  }

  /**
   * Bytes to sextets: each 3 bytes give 4 sextets; a final 2 bytes give 3
   * sextets and a final byte 2, the missing bits counted as zero.
   */
  function ToSextets(b: seq<byte>): (x: seq<sextet>)
    ensures |x| == (4 * |b| + 2) / 3
    decreases |b|
  {
    if |b| >= 3 then GroupToSextets(b[0], b[1], b[2]) + ToSextets(b[3..])
    else if |b| == 2 then GroupToSextets(b[0], b[1], 0)[..3]
    else if |b| == 1 then GroupToSextets(b[0], 0, 0)[..2]
    else []
  }

  /**
   * Sextets to bytes: each 4 sextets give 3 bytes; a final 3 sextets give 2
   * bytes, a final 2 give 1 and a final lone sextet none.
   */
  function FromSextets(x: seq<sextet>): (b: seq<byte>)
    ensures |b| == 3 * |x| / 4
    decreases |x|
  {
    if |x| >= 4 then GroupToBytes(x[0], x[1], x[2], x[3]) + FromSextets(x[4..])
    else if |x| == 3 then GroupToBytes(x[0], x[1], x[2], 0)[..2]
    else if |x| == 2 then GroupToBytes(x[0], x[1], 0, 0)[..1]
    else []
  }

  /** The characters that stand for a sequence of sextets. */
  function Chars(x: seq<sextet>): (s: string)
    ensures |s| == |x|
  {
    seq(|x|, i requires 0 <= i < |x| => CharOf(x[i]))
  }

  /** Unpadded base64url encoding. */
  function Encode(b: seq<byte>): (s: string)
    ensures |s| == (4 * |b| + 2) / 3
    ensures forall i :: 0 <= i < |s| ==> IsUrlSafe(s[i])
    ensures '=' !in s
  {
    Chars(ToSextets(b))
  }

  /** The byte the decoder sees for a UTF-16 code unit: its low eight bits. */
  function LowByte(u: int): (c: char)
    ensures c as int < 256
    ensures 0 <= u < 256 ==> c as int == u
  {
    (u % 256) as char
  }

  /**
   * The sextets the decoder reads from a string's code units: a unit whose
   * low byte is `=` ends the input, and one whose low byte has no value is
   * skipped.
   */
  function ScanUnits(u: seq<int>): (x: seq<sextet>)
    ensures |x| <= |u|
  {
    if u == [] || LowByte(u[0]) == '=' then []
    else match ValueOf(LowByte(u[0]))
      case Some(v) => [v] + ScanUnits(u[1..])
      case None => ScanUnits(u[1..])
  }

  /** The sextets the decoder reads from a string. */
  function Scan(s: string): (x: seq<sextet>)
    ensures |x| <= |JsString.CodeUnits(s)|
  {
    ScanUnits(JsString.CodeUnits(s))
  }

  /** Decoding; it never fails, whatever the input. */
  function Decode(s: string): (b: seq<byte>)
    ensures |b| == 3 * |Scan(s)| / 4
    ensures |b| <= 3 * |JsString.CodeUnits(s)| / 4
  {
    FromSextets(Scan(s))
  }

  /** Sextet sequences that some byte sequence encodes to: no lone final sextet, and the unused low bits of a short final group are zero. */
  predicate IsCanonicalSextets(x: seq<sextet>) {
    && |x| % 4 != 1
    && (|x| % 4 == 2 ==> x[|x| - 1] % 16 == 0)
    && (|x| % 4 == 3 ==> x[|x| - 1] % 4 == 0)
  }

  /** Strings that some byte sequence encodes to. */
  predicate IsCanonical(s: string) {
    (forall i :: 0 <= i < |s| ==> IsUrlSafe(s[i])) && IsCanonicalSextets(Scan(s))
  }

  /** Three bytes survive the trip through four sextets. */
  lemma BytesRoundTrip(b0: byte, b1: byte, b2: byte)
    ensures var x := GroupToSextets(b0, b1, b2); GroupToBytes(x[0], x[1], x[2], x[3]) == [b0, b1, b2]
  {
    assert b0 == b0 / 4 * 4 + (b0 % 4 * 16 + b1 / 16) / 16;
    assert b1 == (b0 % 4 * 16 + b1 / 16) % 16 * 16 + (b1 % 16 * 4 + b2 / 64) / 4;
    assert b2 == (b1 % 16 * 4 + b2 / 64) % 4 * 64 + b2 % 64;
  }

  /** Four sextets survive the trip through three bytes. */
  lemma SextetsRoundTrip(s0: sextet, s1: sextet, s2: sextet, s3: sextet)
    ensures var g := GroupToBytes(s0, s1, s2, s3); GroupToSextets(g[0], g[1], g[2]) == [s0, s1, s2, s3]
  {
    var b0, b1, b2 := s0 * 4 + s1 / 16, s1 % 16 * 16 + s2 / 4, s2 % 4 * 64 + s3;
    assert b0 / 4 == s0 && b0 % 4 == s1 / 16;
    assert b1 / 16 == s1 % 16 && b1 % 16 == s2 / 4;
    assert b2 / 64 == s2 % 4 && b2 % 64 == s3;
  }

  lemma {:induction false} FromToSextets(b: seq<byte>)
    ensures FromSextets(ToSextets(b)) == b
    decreases |b|
  {
    var x := ToSextets(b);
    if |b| >= 3 {
      var g := GroupToSextets(b[0], b[1], b[2]);
      assert x[..4] == g && x[4..] == ToSextets(b[3..]);
      BytesRoundTrip(b[0], b[1], b[2]);
      FromToSextets(b[3..]);
      assert b == [b[0], b[1], b[2]] + b[3..];
    } else if |b| == 2 {
      BytesRoundTrip(b[0], b[1], 0);
      assert b == [b[0], b[1]];
    } else if |b| == 1 {
      BytesRoundTrip(b[0], 0, 0);
      assert b == [b[0]];
    }
  }

  lemma {:induction false} ToFromSextets(x: seq<sextet>)
    requires IsCanonicalSextets(x)
    ensures ToSextets(FromSextets(x)) == x
    decreases |x|
  {
    if |x| >= 4 {
      CanonicalTail(x);
      ToFromSextets(x[4..]);
      ToFromFullGroup(x);
    } else if |x| == 3 {
      ThreeSextetsRoundTrip(x);
    } else if |x| == 2 {
      TwoSextetsRoundTrip(x);
    }
  }

  /** Dropping a full leading group keeps a sextet sequence canonical. */
  lemma CanonicalTail(x: seq<sextet>)
    requires |x| >= 4 && IsCanonicalSextets(x)
    ensures IsCanonicalSextets(x[4..])
  {
    var rest := x[4..];
    assert |rest| % 4 == |x| % 4;
    assert |rest| > 0 ==> rest[|rest| - 1] == x[|x| - 1];
  }

  /** A canonical final group of three sextets survives the trip through bytes. */
  lemma ThreeSextetsRoundTrip(x: seq<sextet>)
    requires |x| == 3 && x[2] % 4 == 0
    ensures ToSextets(FromSextets(x)) == x
  {
    var g := GroupToBytes(x[0], x[1], x[2], 0);
    var b := FromSextets(x);
    assert b == g[..2];
    assert g[2] == 0;
    assert ToSextets(b) == GroupToSextets(g[0], g[1], g[2])[..3];
    SextetsRoundTrip(x[0], x[1], x[2], 0);
    assert x == [x[0], x[1], x[2]];
  }

  /** A canonical final group of two sextets survives the trip through bytes. */
  lemma TwoSextetsRoundTrip(x: seq<sextet>)
    requires |x| == 2 && x[1] % 16 == 0
    ensures ToSextets(FromSextets(x)) == x
  {
    var g := GroupToBytes(x[0], x[1], 0, 0);
    var b := FromSextets(x);
    assert b == g[..1];
    assert g[1] == 0 && g[2] == 0;
    assert ToSextets(b) == GroupToSextets(g[0], g[1], g[2])[..2];
    SextetsRoundTrip(x[0], x[1], 0, 0);
    assert x == [x[0], x[1]];
  }

  /** One step of ToFromSextets: a full leading group. */
  lemma ToFromFullGroup(x: seq<sextet>)
    requires |x| >= 4 && ToSextets(FromSextets(x[4..])) == x[4..]
    ensures ToSextets(FromSextets(x)) == x
  {
    var g := GroupToBytes(x[0], x[1], x[2], x[3]);
    var f := FromSextets(x[4..]);
    var b := FromSextets(x);
    assert b == g + f;
    assert b[0] == g[0] && b[1] == g[1] && b[2] == g[2] && b[3..] == f;
    assert ToSextets(b) == GroupToSextets(g[0], g[1], g[2]) + ToSextets(f);
    SextetsRoundTrip(x[0], x[1], x[2], x[3]);
    assert x == [x[0], x[1], x[2], x[3]] + x[4..];
  }

  /** A string led by an ASCII character reads that character first. */
  lemma ScanCons(s: string)
    requires s != [] && s[0] as int < 0x80
    ensures Scan(s) == if s[0] == '=' then [] else match ValueOf(s[0])
      case Some(v) => [v] + Scan(s[1..])
      case None => Scan(s[1..])
  {
    var u := JsString.CodeUnits(s);
    assert u == [s[0] as int] + JsString.CodeUnits(s[1..]);
    assert u[1..] == JsString.CodeUnits(s[1..]);
  }

  lemma {:induction false} ScanChars(x: seq<sextet>)
    ensures Scan(Chars(x)) == x
    decreases |x|
  {
    if x != [] {
      var s := Chars(x);
      assert s[0] == CharOf(x[0]);
      ValueOfCharOf(x[0]);
      assert s[1..] == Chars(x[1..]);
      ScanCons(s);
      ScanChars(x[1..]);
    }
  }

  lemma {:induction false} CharsScan(s: string)
    requires forall i :: 0 <= i < |s| ==> IsUrlSafe(s[i])
    ensures Chars(Scan(s)) == s
  {
    if s != [] {
      var v := ValueOf(s[0]).value;
      ScanSafeCons(s);
      UrlSafeTail(s);
      CharsScan(s[1..]);
      CharsCons(v, Scan(s[1..]));
      assert s == [s[0]] + s[1..];
    }
  }

  /** A string led by a character of the alphabet reads its value first. */
  lemma ScanSafeCons(s: string)
    requires s != [] && IsUrlSafe(s[0])
    ensures Scan(s) == [ValueOf(s[0]).value] + Scan(s[1..])
  {
    ScanCons(s);
  }

  lemma CharsCons(v: sextet, x: seq<sextet>)
    ensures Chars([v] + x) == [CharOf(v)] + Chars(x)
  {
  }

  lemma UrlSafeTail(s: string)
    requires s != [] && forall i :: 0 <= i < |s| ==> IsUrlSafe(s[i])
    ensures forall i :: 0 <= i < |s[1..]| ==> IsUrlSafe(s[1..][i])
  {
    forall i | 0 <= i < |s[1..]| ensures IsUrlSafe(s[1..][i]) {
      assert s[1..][i] == s[i + 1];
    }
  }

  /** Round trip: decoding an encoding gives the bytes back. */
  lemma DecodeEncode(b: seq<byte>)
    ensures Decode(Encode(b)) == b
  {
    ScanChars(ToSextets(b));
    FromToSextets(b);
  }

  /** Every encoding is canonical. */
  lemma EncodeIsCanonical(b: seq<byte>)
    ensures IsCanonical(Encode(b))
  {
    ScanChars(ToSextets(b));
    ToSextetsCanonical(b);
  }

  lemma {:induction false} ToSextetsCanonical(b: seq<byte>)
    ensures IsCanonicalSextets(ToSextets(b))
    decreases |b|
  {
    if |b| >= 3 {
      ToSextetsCanonical(b[3..]);
      CanonicalAfterGroup(GroupToSextets(b[0], b[1], b[2]), ToSextets(b[3..]));
    } else {
      ShortToSextetsCanonical(b);
    }
  }

  /** A full group in front keeps a sextet sequence canonical. */
  lemma CanonicalAfterGroup(g: seq<sextet>, rest: seq<sextet>)
    requires |g| == 4 && IsCanonicalSextets(rest)
    ensures IsCanonicalSextets(g + rest)
  {
    var x := g + rest;
    assert |x| % 4 == |rest| % 4;
    assert |rest| > 0 ==> x[|x| - 1] == rest[|rest| - 1];
  }

  /** The encoding of fewer than three bytes leaves zero low bits. */
  lemma ShortToSextetsCanonical(b: seq<byte>)
    requires |b| < 3
    ensures IsCanonicalSextets(ToSextets(b))
  {
    var x := ToSextets(b);
    if |b| == 2 {
      var g := GroupToSextets(b[0], b[1], 0);
      assert x == g[..3];
      assert |x| == 3 && x[2] == g[2];
    } else if |b| == 1 {
      var g := GroupToSextets(b[0], 0, 0);
      assert x == g[..2];
      assert |x| == 2 && x[1] == g[1];
    } else {
      assert x == [];
    }
  }

  /** The other direction: every canonical string is the encoding of what it decodes to. */
  lemma EncodeDecode(s: string)
    requires IsCanonical(s)
    ensures Encode(Decode(s)) == s
  {
    ToFromSextets(Scan(s));
    CharsScan(s);
  }

  /** The length (4n + 2) / 3 of an n-byte encoding is ⌈4n/3⌉: the fewest sextets that hold 8n bits. */
  lemma EncodeLengthIsCeiling(b: seq<byte>)
    ensures var m := |Encode(b)|; 3 * m >= 4 * |b| && 3 * (m - 1) < 4 * |b|
  {
  }

  /** Test vector of section 10 of RFC 4648, without its padding: "f", one byte in two sextets. */
  lemma Rfc4648OneByteVector()
    ensures Encode([102]) == "Zg"
  {
    var x := ToSextets([102]);
    assert x == GroupToSextets(102, 0, 0)[..2];
    assert x[0] == 25 && x[1] == 32;
    assert Chars([25, 32]) == "Zg";
  }

  /** Test vector of section 10 of RFC 4648, without its padding: "fo", two bytes in three sextets. */
  lemma Rfc4648TwoByteVector()
    ensures Encode([102, 111]) == "Zm8"
  {
    var x := ToSextets([102, 111]);
    assert x == GroupToSextets(102, 111, 0)[..3];
    assert x[0] == 25 && x[1] == 38 && x[2] == 60;
    assert Chars([25, 38, 60]) == "Zm8";
  }

  /** Test vector of section 10 of RFC 4648: "foobar", two full groups. */
  lemma Rfc4648FoobarVector()
    ensures Encode([102, 111, 111, 98, 97, 114]) == "Zm9vYmFy"
  {
  }

  /** A character of the Basic Multilingual Plane is read as the character of its low byte. */
  lemma ScanBmpLowByte(c: char, t: string)
    requires JsString.IsBmp(c)
    ensures Scan([c] + t) == Scan([LowByte(c as int)] + t)
  {
    var d := LowByte(c as int);
    assert ([c] + t)[1..] == t && ([d] + t)[1..] == t;
    assert JsString.CodeUnits([c] + t) == [c as int] + JsString.CodeUnits(t);
    assert JsString.CodeUnits([d] + t) == [d as int] + JsString.CodeUnits(t);
    assert LowByte(d as int) == d;
  }

  lemma ScanWideChars()
    ensures Scan("\U{0141}\U{0141}") == [0, 0]
  {
    var u := JsString.CodeUnits("\U{0141}\U{0141}");
    assert u == [0x141, 0x141];
    assert LowByte(0x141) == 'A';
    assert ScanUnits(u[1..]) == [0];
  }

  lemma ScanTwoZeroSextets()
    ensures Scan("AA") == [0, 0]
  {
    assert JsString.CodeUnits("AA") == [65, 65];
  }

  /** `Ł` (U+0141) has the low byte of `A`, so "ŁŁ" is read, and decodes, as "AA" is. */
  lemma WideCharsReadAsLowBytes()
    ensures Scan("\U{0141}\U{0141}") == Scan("AA") == [0, 0]
    ensures Decode("\U{0141}\U{0141}") == Decode("AA")
  {
    ScanWideChars();
    ScanTwoZeroSextets();
  }

  /** An emoji's high surrogate U+D83D has the low byte of `=`, so decoding stops there. */
  lemma SurrogateEndsInput()
    ensures Scan("QQ\U{1F600}QQ") == Scan("QQ") == [16, 16]
    ensures Decode("QQ\U{1F600}QQ") == Decode("QQ")
  {
    ScanStopsAtSurrogate();
    ScanTwoSextets();
  }

  lemma ScanStopsAtSurrogate()
    ensures Scan("QQ\U{1F600}QQ") == [16, 16]
  {
    var u := JsString.CodeUnits("QQ\U{1F600}QQ");
    assert u[0] == 81 && u[1] == 81 && u[2] == 0xD83D;
    assert LowByte(0xD83D) == '=';
    assert ScanUnits(u[2..]) == [];
    assert ScanUnits(u[1..]) == [16];
  }

  lemma ScanTwoSextets()
    ensures Scan("QQ") == [16, 16]
  {
    assert JsString.CodeUnits("QQ") == [81, 81];
  }

  /** Distinct byte sequences have distinct encodings. */
  lemma EncodeInjective(b: seq<byte>, c: seq<byte>)
    requires Encode(b) == Encode(c)
    ensures b == c
  {
    DecodeEncode(b);
    DecodeEncode(c);
  }
}
