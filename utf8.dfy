/*
 * UTF-8 as Encoding.UTF8 applies it to the payloads of the blob files:
 * GetBytes / GetByteCount on the way out and GetString on the way in.
 * Text is a sequence of Unicode scalar values; GetString replaces each
 * maximal malformed part of the bytes by one U+FFFD.
 */
module Utf8 {
  import opened Common

  predicate IsContinuation(b: int) { 0x80 <= b < 0xC0 }

  predicate IsScalar(v: int) { 0 <= v < 0xD800 || 0xE000 <= v < 0x11_0000 }

  /** The UTF-8 bytes of one character: one byte below 0x80, otherwise a lead byte and continuation bytes. */
  function EncodeChar(c: char): (r: seq<byte>)
    ensures 1 <= |r| <= 4
    ensures (c as int < 0x80) == (|r| == 1)
    ensures |r| == 1 ==> r[0] == c as int
  {
    var v := c as int;
    if v < 0x80 then [v]
    else if v < 0x800 then [0xC0 + v / 64, 0x80 + v % 64]
    else if v < 0x1_0000 then [0xE0 + v / 4096, 0x80 + v / 64 % 64, 0x80 + v % 64]
    else [0xF0 + v / 262144, 0x80 + v / 4096 % 64, 0x80 + v / 64 % 64, 0x80 + v % 64]
  }

  /** A multi-byte sequence uses only bytes from 0x80 up: lead and continuation bytes alike. */
  lemma EncodeCharHigh(c: char)
    ensures |EncodeChar(c)| > 1 ==> forall i :: 0 <= i < |EncodeChar(c)| ==> EncodeChar(c)[i] >= 0x80
  {
  }

  /** Encoding.UTF8.GetBytes. */
  function Encode(s: string): (r: seq<byte>)
    ensures |s| <= |r| <= 4 * |s|
  {
    if s == [] then [] else EncodeChar(s[0]) + Encode(s[1..])
  }

  /** Encoding.UTF8.GetByteCount. */
  function ByteCount(s: string): nat { |Encode(s)| }

  /** The replacement character U+FFFD that GetString puts in place of a malformed sequence. */
  const Replacement: char := '\U{FFFD}'

  /**
   * The range of the second byte of a well-formed sequence, given its lead byte
   * (table 3-7 of the Unicode Standard): after E0 only A0..BF (no overlong form),
   * after ED only 80..9F (no surrogate), after F0 only 90..BF (no overlong form),
   * after F4 only 80..8F (nothing past U+10FFFF), otherwise any continuation byte.
   */
  predicate SecondOk(b0: int, b1: int)
  {
    if b0 == 0xE0 then 0xA0 <= b1 < 0xC0
    else if b0 == 0xED then 0x80 <= b1 < 0xA0
    else if b0 == 0xF0 then 0x90 <= b1 < 0xC0
    else if b0 == 0xF4 then 0x80 <= b1 < 0x90
    else IsContinuation(b1)
  }

  /**
   * The first character of a byte sequence and the number of bytes it takes.
   * A well-formed sequence decodes to its character. Otherwise the longest
   * prefix of a well-formed sequence found there (at least one byte) is
   * replaced by one U+FFFD, as GetString does since .NET Core 3.0.
   */
  function DecodeFirst(b: seq<byte>): (r: (char, nat))
    requires |b| >= 1
    ensures 1 <= r.1 <= |b|
  {
    var b0: int := b[0];
    var b1: int := if |b| >= 2 then b[1] else 0;
    var b2: int := if |b| >= 3 then b[2] else 0;
    var b3: int := if |b| >= 4 then b[3] else 0;
    if b0 < 0x80 then (b0 as char, 1)
    else if 0xC2 <= b0 < 0xE0 then
      if |b| < 2 || !IsContinuation(b1) then (Replacement, 1)
      else (((b0 - 0xC0) * 64 + (b1 - 0x80)) as char, 2)
    else if 0xE0 <= b0 < 0xF0 then
      if |b| < 2 || !SecondOk(b0, b1) then (Replacement, 1)
      else if |b| < 3 || !IsContinuation(b2) then (Replacement, 2)
      else (((b0 - 0xE0) * 4096 + (b1 - 0x80) * 64 + (b2 - 0x80)) as char, 3)
    else if 0xF0 <= b0 < 0xF5 then
      if |b| < 2 || !SecondOk(b0, b1) then (Replacement, 1)
      else if |b| < 3 || !IsContinuation(b2) then (Replacement, 2)
      else if |b| < 4 || !IsContinuation(b3) then (Replacement, 3)
      else (((b0 - 0xF0) * 262144 + (b1 - 0x80) * 4096 + (b2 - 0x80) * 64 + (b3 - 0x80)) as char, 4)
    else (Replacement, 1)
  }

  /** Encoding.UTF8.GetString: one character per well-formed sequence, one U+FFFD per maximal malformed part. */
  function Decode(b: seq<byte>): (r: string)
    decreases |b|
  {
    if b == [] then [] else
      var (c, n) := DecodeFirst(b);
      [c] + Decode(b[n..])
  }

  /** Decoding gives at most one character per byte, and at least one for a non-empty input. */
  lemma {:induction false} DecodeLength(b: seq<byte>)
    ensures |Decode(b)| <= |b|
    ensures b != [] ==> Decode(b) != []
    decreases |b|
  {
    if b != [] {
      DecodeLength(b[DecodeFirst(b).1..]);
    }
  }

  lemma DivMod64(x: nat)
    ensures x == x / 64 * 64 + x % 64
    ensures x / 64 / 64 == x / 4096 && x / 4096 / 64 == x / 262144
  {
  }

  lemma DecodeFirstOfEncoded(c: char, rest: seq<byte>)
    ensures DecodeFirst(EncodeChar(c) + rest) == (c, |EncodeChar(c)|)
  {
    var v := c as int;
    if v < 0x80 {
    } else if v < 0x800 {
      DecodeFirstOfEncoded2(c, rest);
    } else if v < 0x1_0000 {
      DecodeFirstOfEncoded3(c, rest);
    } else {
      DecodeFirstOfEncoded4(c, rest);
    }
  }

  lemma DecodeFirstOfEncoded2(c: char, rest: seq<byte>)
    requires 0x80 <= c as int < 0x800
    ensures DecodeFirst(EncodeChar(c) + rest) == (c, 2)
  {
    var v := c as int;
    var b := EncodeChar(c) + rest;
    DivMod64(v);
    assert b[0] as int - 0xC0 == v / 64 && b[1] as int - 0x80 == v % 64;
  }

  lemma DecodeFirstOfEncoded3(c: char, rest: seq<byte>)
    requires 0x800 <= c as int < 0x1_0000
    ensures DecodeFirst(EncodeChar(c) + rest) == (c, 3)
  {
    var v := c as int;
    var b := EncodeChar(c) + rest;
    DivMod64(v);
    DivMod64(v / 64);
    assert b[0] as int - 0xE0 == v / 4096 && b[1] as int - 0x80 == v / 64 % 64 && b[2] as int - 0x80 == v % 64;
    assert (b[0] as int - 0xE0) * 4096 + (b[1] as int - 0x80) * 64 + (b[2] as int - 0x80) == v;
  }

  lemma DecodeFirstOfEncoded4(c: char, rest: seq<byte>)
    requires 0x1_0000 <= c as int
    ensures DecodeFirst(EncodeChar(c) + rest) == (c, 4)
  {
    var v := c as int;
    var b := EncodeChar(c) + rest;
    DivMod64(v);
    DivMod64(v / 64);
    DivMod64(v / 4096);
    assert b[0] as int - 0xF0 == v / 262144 && b[1] as int - 0x80 == v / 4096 % 64;
    assert b[2] as int - 0x80 == v / 64 % 64 && b[3] as int - 0x80 == v % 64;
    assert (b[0] as int - 0xF0) * 262144 + (b[1] as int - 0x80) * 4096 + (b[2] as int - 0x80) * 64 + (b[3] as int - 0x80) == v;
  }

  /** A byte sequence with which the UTF-8 encoding of some character begins. */
  ghost predicate StartsEncoding(p: seq<byte>)
  {
    exists c: char :: |p| <= |EncodeChar(c)| && EncodeChar(c)[..|p|] == p
  }

  lemma EncodeOf2(x: int, y: int)
    requires 2 <= x < 32 && 0 <= y < 64
    ensures EncodeChar((x * 64 + y) as char) == [0xC0 + x, 0x80 + y]
  {
    DivMod64(x * 64 + y);
  }

  lemma EncodeOf3(x: int, y: int, z: int)
    requires 0 <= x < 16 && 0 <= y < 64 && 0 <= z < 64
    requires 0x800 <= x * 4096 + y * 64 + z && IsScalar(x * 4096 + y * 64 + z)
    ensures EncodeChar((x * 4096 + y * 64 + z) as char) == [0xE0 + x, 0x80 + y, 0x80 + z]
  {
    var v := x * 4096 + y * 64 + z;
    assert v / 64 == x * 64 + y;
    assert v / 4096 == x;
  }

  lemma EncodeOf4(w: int, x: int, y: int, z: int)
    requires 0 <= w < 5 && 0 <= x < 64 && 0 <= y < 64 && 0 <= z < 64
    requires 0x1_0000 <= w * 262144 + x * 4096 + y * 64 + z < 0x11_0000
    ensures EncodeChar((w * 262144 + x * 4096 + y * 64 + z) as char) == [0xF0 + w, 0x80 + x, 0x80 + y, 0x80 + z]
  {
    var v := w * 262144 + x * 4096 + y * 64 + z;
    assert v / 64 == w * 4096 + x * 64 + y;
    assert v / 4096 == w * 64 + x;
    assert v / 262144 == w;
  }

  /**
   * A prefix of a well-formed sequence is never cut short: DecodeFirst takes at
   * least as many bytes, and decodes the character once the sequence is complete.
   */
  lemma DecodeFirstPrefix(b: seq<byte>, d: char, m: nat)
    requires 1 <= m <= |b| && m <= |EncodeChar(d)| && b[..m] == EncodeChar(d)[..m]
    ensures DecodeFirst(b).1 >= m
    ensures m == |EncodeChar(d)| ==> DecodeFirst(b) == (d, m)
  {
    var e := EncodeChar(d);
    var v := d as int;
    assert forall i :: 0 <= i < m ==> b[i] == e[i] by {
      forall i | 0 <= i < m ensures b[i] == e[i] { assert b[..m][i] == b[i]; }
    }
    if m == |e| {
      assert b == e + b[m..];
      DecodeFirstOfEncoded(d, b[m..]);
    } else if 0x800 <= v < 0x1_0000 && m == 2 {
      DivMod64(v);
      assert b[1] as int == 0x80 + v / 64 % 64;
    } else if 0x1_0000 <= v && m >= 2 {
      DivMod64(v);
      DivMod64(v / 64);
      assert b[1] as int == 0x80 + v / 4096 % 64;
    }
  }

  /**
   * DecodeFirst follows the substitution of maximal subparts of section 3.9 of the
   * Unicode Standard: the bytes it takes are a well-formed sequence, decoded to its
   * character, or else the longest prefix of one found there (a single byte when
   * there is none), replaced by one U+FFFD.
   */
  lemma DecodeFirstMaximal(b: seq<byte>)
    requires |b| >= 1
    ensures var (c, n) := DecodeFirst(b);
      && (n == 1 || StartsEncoding(b[..n]))
      && (n < |b| ==> !StartsEncoding(b[..n + 1]))
      && (b[..n] == EncodeChar(c) || (c == Replacement && forall d: char :: EncodeChar(d) != b[..n]))
  {
    var (c, n) := DecodeFirst(b);
    DecodeFirstBytes(b);
    if n < |b| && StartsEncoding(b[..n + 1]) {
      var d: char :| n + 1 <= |EncodeChar(d)| && EncodeChar(d)[..n + 1] == b[..n + 1];
      assert b[..n + 1][..n + 1] == b[..n + 1];
      DecodeFirstPrefix(b, d, n + 1);
    }
    if b[..n] != EncodeChar(c) {
      forall d: char ensures EncodeChar(d) != b[..n] {
        if EncodeChar(d) == b[..n] {
          DecodeFirstPrefix(b, d, n);
        }
      }
    }
  }

  /** The bytes DecodeFirst takes begin an encoding, and are one when it decodes a character other than U+FFFD. */
  lemma DecodeFirstBytes(b: seq<byte>)
    requires |b| >= 1
    ensures var (c, n) := DecodeFirst(b);
      && (n == 1 || StartsEncoding(b[..n]))
      && (c != Replacement ==> b[..n] == EncodeChar(c))
  {
    var b0: int := b[0];
    if 0xC2 <= b0 < 0xE0 {
      DecodeFirstBytes2(b);
    } else if 0xE0 <= b0 < 0xF0 {
      DecodeFirstBytes3(b);
    } else if 0xF0 <= b0 < 0xF5 {
      DecodeFirstBytes4(b);
    }
  }

  lemma DecodeFirstBytes2(b: seq<byte>)
    requires |b| >= 1 && 0xC2 <= b[0] < 0xE0
    ensures var (c, n) := DecodeFirst(b);
      && (n == 1 || StartsEncoding(b[..n]))
      && (c != Replacement ==> b[..n] == EncodeChar(c))
  {
    if DecodeFirst(b).1 == 2 {
      EncodeOf2(b[0] - 0xC0, b[1] - 0x80);
      assert b[..2] == [b[0], b[1]];
    }
  }

  lemma DecodeFirstBytes3(b: seq<byte>)
    requires |b| >= 1 && 0xE0 <= b[0] < 0xF0
    ensures var (c, n) := DecodeFirst(b);
      && (n == 1 || StartsEncoding(b[..n]))
      && (c != Replacement ==> b[..n] == EncodeChar(c))
  {
    var n := DecodeFirst(b).1;
    var x: int := b[0] as int - 0xE0;
    if n == 2 {
      var y: int := b[1] as int - 0x80;
      EncodeOf3(x, y, 0);
      assert b[..2] == EncodeChar((x * 4096 + y * 64) as char)[..2];
    } else if n == 3 {
      EncodeOf3(x, b[1] - 0x80, b[2] - 0x80);
      assert b[..3] == [b[0], b[1], b[2]];
    }
  }

  lemma DecodeFirstBytes4(b: seq<byte>)
    requires |b| >= 1 && 0xF0 <= b[0] < 0xF5
    ensures var (c, n) := DecodeFirst(b);
      && (n == 1 || StartsEncoding(b[..n]))
      && (c != Replacement ==> b[..n] == EncodeChar(c))
  {
    var n := DecodeFirst(b).1;
    var w: int := b[0] as int - 0xF0;
    if n == 2 {
      var x: int := b[1] as int - 0x80;
      EncodeOf4(w, x, 0, 0);
      assert b[..2] == EncodeChar((w * 262144 + x * 4096) as char)[..2];
    } else if n == 3 {
      var x: int, y: int := b[1] as int - 0x80, b[2] as int - 0x80;
      EncodeOf4(w, x, y, 0);
      assert b[..3] == EncodeChar((w * 262144 + x * 4096 + y * 64) as char)[..3];
    } else if n == 4 {
      EncodeOf4(w, b[1] - 0x80, b[2] - 0x80, b[3] - 0x80);
      assert b[..4] == [b[0], b[1], b[2], b[3]];
    }
  }

  /**
   * Malformed input as GetString reads it: a truncated three-byte sequence before
   * 'A' and a truncated four-byte sequence each become one U+FFFD, while stray
   * continuation bytes become one U+FFFD each.
   */
  lemma MalformedExamples()
    ensures Decode([0xE2, 0x82, 0x41]) == [Replacement, 'A']
    ensures Decode([0xF0, 0x9F, 0x98]) == [Replacement]
    ensures Decode([0x80, 0x80]) == [Replacement, Replacement]
    ensures Decode([0xED, 0xA0, 0x80]) == [Replacement, Replacement, Replacement]
  {
    var p: seq<byte> := [0xE2, 0x82, 0x41];
    assert DecodeFirst(p) == (Replacement, 2);
    assert p[2..] == [0x41];
    var q: seq<byte> := [0x80, 0x80];
    assert q[1..] == [0x80];
    var s: seq<byte> := [0xED, 0xA0, 0x80];
    assert s[1..] == [0xA0, 0x80] && s[1..][1..] == [0x80];
  }

  /** GetString undoes GetBytes. */
  lemma {:induction false} DecodeEncode(s: string)
    ensures Decode(Encode(s)) == s
  {
    if s != [] {
      var e := Encode(s);
      DecodeFirstOfEncoded(s[0], Encode(s[1..]));
      assert e[|EncodeChar(s[0])|..] == Encode(s[1..]);
      DecodeEncode(s[1..]);
    }
  }

  /** Encoding distributes over concatenation. */
  lemma {:induction false} EncodeAppend(s: string, t: string)
    ensures Encode(s + t) == Encode(s) + Encode(t)
  {
    if s == [] {
      assert s + t == t;
    } else {
      var u := s + t;
      assert u[0] == s[0] && u[1..] == s[1..] + t;
      var a, b, c := EncodeChar(s[0]), Encode(s[1..]), Encode(t);
      calc {
        Encode(u);
        a + Encode(s[1..] + t);
        { EncodeAppend(s[1..], t); }
        a + (b + c);
        { SeqAssoc(a, b, c); }
        (a + b) + c;
      }
    }
  }

  /**
   * A byte below 0x80 occurs in the encoding exactly where its character occurs in the text:
   * multi-byte sequences use only bytes from 0x80 up, so STX and ETX never arise inside one.
   */
  lemma {:induction false} AsciiByteInEncoding(s: string, b: byte)
    requires b < 0x80
    ensures b in Encode(s) <==> (b as char) in s
  {
    if s != [] {
      AsciiByteInEncoding(s[1..], b);
      var e := EncodeChar(s[0]);
      EncodeCharHigh(s[0]);
      assert Encode(s) == e + Encode(s[1..]);
      assert b in e <==> s[0] == b as char;
      assert (b as char) in s <==> s[0] == b as char || (b as char) in s[1..] by {
        assert s == [s[0]] + s[1..];
      }
    }
  }

  /** The number of UTF-16 code units of the text: String.Length in .NET. */
  function Utf16Length(s: string): (n: nat)
    ensures |s| <= n <= 2 * |s|
  {
    if s == [] then 0 else (if s[0] as int >= 0x1_0000 then 2 else 1) + Utf16Length(s[1..])
  }
}
