/**
 * UTF-8 as defined in section 3 of RFC 3629: how a string of Unicode scalar
 * values (Dafny's `char`) becomes bytes, the strict decoder that Python's
 * `bytes.decode("utf-8")` implements, and the lossy decoder that
 * `decode("utf-8", errors="ignore")` implements.
 */
module Utf8 {
  import opened Wrappers

  /** One byte of an encoded string. */
  type Byte = b: int | 0 <= b < 256

  /**
   * A continuation byte has the bit pattern 10xxxxxx; the tokenizer tests it
   * with the mask `b & 0b11000000 == 0b10000000`, which ContinuationMask
   * shows is the same range.
   */
  predicate IsContinuation(b: Byte) {
    0x80 <= b < 0xC0
  }

  lemma ContinuationMask(b: Byte)
    ensures IsContinuation(b) <==> (b as bv8) & 0xC0 == 0x80
  {
  }

  /** The encoded width of one scalar value: 1 to 4 bytes. */
  function Width(c: char): (n: nat)
    ensures 1 <= n <= 4
  {
    var cp := c as int;
    if cp < 0x80 then 1
    else if cp < 0x800 then 2
    else if cp < 0x1_0000 then 3
    else 4
  }

  /** The bytes of one scalar value: a lead byte followed by continuation bytes. */
  function EncodeChar(c: char): (r: seq<Byte>)
    ensures |r| == Width(c)
    ensures !IsContinuation(r[0])
    ensures forall k :: 1 <= k < |r| ==> IsContinuation(r[k])
  {
    var cp := c as int;
    if cp < 0x80 then
      [cp]
    else if cp < 0x800 then
      [0xC0 + cp / 64, 0x80 + cp % 64]
    else if cp < 0x1_0000 then
      [0xE0 + cp / 4096, 0x80 + (cp / 64) % 64, 0x80 + cp % 64]
    else
      [0xF0 + cp / 262144, 0x80 + (cp / 4096) % 64, 0x80 + (cp / 64) % 64, 0x80 + cp % 64]
  }

  /** `str.encode("utf-8")`. */
  function Encode(s: string): (r: seq<Byte>)
    ensures |r| >= |s|
  {
    if s == [] then [] else EncodeChar(s[0]) + Encode(s[1..])
  }

  predicate IsScalar(cp: int) {
    0 <= cp < 0xD800 || 0xE000 <= cp < 0x11_0000
  }

  /** The six payload bits of a continuation byte. */
  function Low6(b: Byte): int {
    b as int - 0x80
  }

  /**
   * Decodes the character at the front of `b`, giving it and the number of
   * bytes it took, or None when the front is not a well-formed sequence:
   * a stray continuation byte, a lead byte C0, C1 or F5..FF, a truncated
   * sequence, an overlong form, a surrogate or a value above U+10FFFF.
   */
  function DecodeFirst(b: seq<Byte>): (r: Option<(char, nat)>)
    ensures r.Some? ==> 1 <= r.value.1 <= |b| && r.value.1 == Width(r.value.0)
  {
    if |b| == 0 then None
    else
      var b0 := b[0] as int;
      if b0 < 0x80 then
        Some((b0 as char, 1))
      else if 0xC2 <= b0 < 0xE0 then
        if |b| >= 2 && IsContinuation(b[1]) then
          Some((((b0 - 0xC0) * 64 + Low6(b[1])) as char, 2))
        else None
      else if 0xE0 <= b0 < 0xF0 then
        if |b| >= 3 && IsContinuation(b[1]) && IsContinuation(b[2]) then
          var cp := (b0 - 0xE0) * 4096 + Low6(b[1]) * 64 + Low6(b[2]);
          if 0x800 <= cp && IsScalar(cp) then Some((cp as char, 3)) else None
        else None
      else if 0xF0 <= b0 < 0xF5 then
        if |b| >= 4 && IsContinuation(b[1]) && IsContinuation(b[2]) && IsContinuation(b[3]) then
          var cp := (b0 - 0xF0) * 262144 + Low6(b[1]) * 4096 + Low6(b[2]) * 64 + Low6(b[3]);
          if 0x1_0000 <= cp < 0x11_0000 then Some((cp as char, 4)) else None
        else None
      else None
  }

  /** Strict `bytes.decode("utf-8")`: None where Python raises UnicodeDecodeError. */
  function Decode(b: seq<Byte>): (r: Option<string>)
    decreases |b|
  {
    if b == [] then Some([])
    else match DecodeFirst(b)
      case None => None
      case Some((c, n)) =>
        match Decode(b[n..])
        case None => None
        case Some(rest) => Some([c] + rest)
  }

  /**
   * `bytes.decode("utf-8", errors="ignore")`: a byte that does not start a
   * well-formed sequence is dropped and decoding resumes at the next byte.
   */
  function DecodeIgnore(b: seq<Byte>): (r: string)
    ensures |r| <= |b|
    decreases |b|
  {
    if b == [] then []
    else match DecodeFirst(b)
      case None => DecodeIgnore(b[1..])
      case Some((c, n)) => [c] + DecodeIgnore(b[n..])
  }

  // ---------------------------------------------------------------------
  // Round trips

  lemma DecodeFirstTwo(c: char, rest: seq<Byte>)
    requires 0x80 <= c as int < 0x800
    ensures DecodeFirst(EncodeChar(c) + rest) == Some((c, 2))
  {
    var cp := c as int;
    var b := EncodeChar(c) + rest;
    var hi, lo := cp / 64, cp % 64;
    assert cp == hi * 64 + lo;
    assert b[0] == 0xC0 + hi && b[1] == 0x80 + lo;
    assert 2 <= hi < 32;
  }

  lemma DecodeFirstThree(c: char, rest: seq<Byte>)
    requires 0x800 <= c as int < 0x1_0000
    ensures DecodeFirst(EncodeChar(c) + rest) == Some((c, 3))
  {
    var cp := c as int;
    var b := EncodeChar(c) + rest;
    var hi, mid, lo := cp / 4096, (cp / 64) % 64, cp % 64;
    assert cp == hi * 4096 + mid * 64 + lo;
    assert b[0] == 0xE0 + hi && b[1] == 0x80 + mid && b[2] == 0x80 + lo;
    assert IsScalar(cp);
  }

  lemma DecodeFirstFour(c: char, rest: seq<Byte>)
    requires 0x1_0000 <= c as int
    ensures DecodeFirst(EncodeChar(c) + rest) == Some((c, 4))
  {
    var cp := c as int;
    var b := EncodeChar(c) + rest;
    var q1, lo := cp / 64, cp % 64;
    var q2, mid2 := q1 / 64, q1 % 64;
    var hi, mid1 := q2 / 64, q2 % 64;
    assert q2 == cp / 4096 && hi == cp / 262144;
    assert b[0] == 0xF0 + hi && b[1] == 0x80 + mid1 && b[2] == 0x80 + mid2 && b[3] == 0x80 + lo;
    assert hi <= 4;
    var back := (b[0] - 0xF0) * 262144 + Low6(b[1]) * 4096 + Low6(b[2]) * 64 + Low6(b[3]);
    assert back == ((hi * 64 + mid1) * 64 + mid2) * 64 + lo;
    assert back == cp;
  }

  /** The decoder reads back exactly the character the encoder wrote, whatever follows it. */
  lemma DecodeFirstEncodeChar(c: char, rest: seq<Byte>)
    ensures DecodeFirst(EncodeChar(c) + rest) == Some((c, Width(c)))
  {
    var cp := c as int;
    if cp < 0x80 {
    } else if cp < 0x800 {
      DecodeFirstTwo(c, rest);
    } else if cp < 0x1_0000 {
      DecodeFirstThree(c, rest);
    } else {
      DecodeFirstFour(c, rest);
    }
  }

  lemma {:induction false} EncodeAppend(s: string, t: string)
    ensures Encode(s + t) == Encode(s) + Encode(t)
  {
    if s != [] {
      assert (s + t)[0] == s[0] && (s + t)[1..] == s[1..] + t;
      EncodeAppend(s[1..], t);
    } else {
      assert s + t == t;
    }
  }

  /** One step of the strict decoder after a well-formed first character. */
  lemma DecodeStep(b: seq<Byte>, c: char, n: nat)
    requires DecodeFirst(b) == Some((c, n))
    ensures Decode(b[n..]).None? ==> Decode(b).None?
    ensures Decode(b[n..]).Some? ==> Decode(b) == Some([c] + Decode(b[n..]).value)
  {
  }

  /** Prepending a character to both sides of a decoding. */
  lemma ConsAppend(c: char, s: string, t: string)
    requires s != [] && s[0] == c
    ensures [c] + (s[1..] + t) == s + t
  {
  }

  /** Decoding an encoding followed by more bytes decodes the encoding, then the rest. */
  lemma {:induction false} DecodeEncodeThen(s: string, rest: seq<Byte>)
    ensures Decode(rest).None? ==> Decode(Encode(s) + rest).None?
    ensures Decode(rest).Some? ==> Decode(Encode(s) + rest) == Some(s + Decode(rest).value)
  {
    if s == [] {
      assert Encode(s) + rest == rest;
      assert Decode(rest).Some? ==> s + Decode(rest).value == Decode(rest).value;
    } else {
      var tail := Encode(s[1..]) + rest;
      var b := Encode(s) + rest;
      assert b == EncodeChar(s[0]) + tail;
      DecodeFirstEncodeChar(s[0], tail);
      assert b[Width(s[0])..] == tail;
      DecodeEncodeThen(s[1..], rest);
      DecodeStep(b, s[0], Width(s[0]));
      if Decode(rest).Some? {
        ConsAppend(s[0], s, Decode(rest).value);
      }
    }
  }

  /** Strict decoding inverts encoding (section 3 of RFC 3629). */
  lemma DecodeEncode(s: string)
    ensures Decode(Encode(s)) == Some(s)
  {
    DecodeEncodeThen(s, []);
    assert Encode(s) + [] == Encode(s);
    assert s + [] == s;
  }

  /** On well-formed input the lossy decoder drops nothing. */
  lemma {:induction false} DecodeIgnoreEncode(s: string)
    ensures DecodeIgnore(Encode(s)) == s
  {
    if s != [] {
      var b := Encode(s);
      DecodeFirstEncodeChar(s[0], Encode(s[1..]));
      assert b[Width(s[0])..] == Encode(s[1..]);
      DecodeIgnoreEncode(s[1..]);
    }
  }

  /** Any bytes that encode `s` decode back to `s`. */
  lemma DecodeIgnoreOf(b: seq<Byte>, s: string)
    requires b == Encode(s)
    ensures DecodeIgnore(b) == s
  {
    DecodeIgnoreEncode(s);
  }

  /** A character cut short fails to decode. */
  lemma DecodeTruncatedChar(c: char, q: nat)
    requires 0 < q < Width(c)
    ensures Decode(EncodeChar(c)[..q]) == None
  {
    var p := EncodeChar(c)[..q];
    assert DecodeFirst(p) == None by {
      var cp := c as int;
      if cp < 0x800 {
      } else if cp < 0x1_0000 {
        assert p[0] == 0xE0 + cp / 4096;
      } else {
        assert p[0] == 0xF0 + cp / 262144;
      }
    }
  }

  /** Bytes that end inside a character fail strict decoding, whatever valid text precedes them. */
  lemma DecodeEndsMidChar(s: string, c: char, q: nat)
    requires 0 < q < Width(c)
    ensures Decode(Encode(s) + EncodeChar(c)[..q]) == None
  {
    DecodeTruncatedChar(c, q);
    DecodeEncodeThen(s, EncodeChar(c)[..q]);
  }
}
