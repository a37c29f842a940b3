/*
 * Shared vocabulary of the model: optional values and results standing for
 * .NET nulls and exceptions, fixed-width integer narrowing, and the small
 * text utilities (decimal and hexadecimal digits, Split/Join on one
 * separator character, ASCII case folding) that the Lcl.EventLog code
 * obtains from the .NET base library.
 */
module Common {

  datatype Option<T> = None | Some(value: T)

  /** The .NET exception types that the modelled code throws or lets escape. */
  datatype Exception =
    | ArgumentException
    | ArgumentOutOfRange
    | InvalidOperation
    | KeyNotFound
    | ObjectDisposed
    | FileNotFound
    | FormatException
    | OverflowException
    | IndexOutOfRange
    | NotImplemented
    | ConstraintViolation        // a UNIQUE / PRIMARY KEY violation raised by the store
    | IOException(cause: IOCause)

  datatype IOCause = TruncatedHeader | CompressedInput | BadHeaderDigit | BadHeaderEnd
                   | TruncatedPayload | NoRecordStart | NoRecordEnd

  datatype Result<T> = Ok(value: T) | Err(error: Exception)
  {
    predicate IsFailure() { Err? }
    function PropagateFailure<U>(): Result<U> requires Err? { Err(error) }
    function Extract(): T requires Ok? { value }
  }

  type byte = x: int | 0 <= x < 256

  // ---------------------------------------------------------------- integers

  const Int32Min: int := -0x8000_0000
  const Int32Max: int := 0x7FFF_FFFF
  const Int64Min: int := -0x8000_0000_0000_0000
  const Int64Max: int := 0x7FFF_FFFF_FFFF_FFFF

  predicate IsInt32(x: int) { Int32Min <= x <= Int32Max }
  predicate IsInt64(x: int) { Int64Min <= x <= Int64Max }

  /** The values of a C# int field. */
  type Int32 = x: int | IsInt32(x)

  /** The C# conversion (int)x of a long in an unchecked context: keep the low 32 bits, two's complement. */
  function ToInt32(x: int): (r: int)
    ensures IsInt32(r)
    ensures (r - x) % 0x1_0000_0000 == 0
    ensures IsInt32(x) ==> r == x
  {
    var low := x % 0x1_0000_0000;
    if low <= Int32Max then low else low - 0x1_0000_0000
  }

  /** Values that differ by a multiple of 2^32 narrow to the same int. */
  lemma ToInt32Congruent(x: int, y: int)
    requires (x - y) % 0x1_0000_0000 == 0
    ensures ToInt32(x) == ToInt32(y)
  {
    var k := (x - y) / 0x1_0000_0000;
    assert x == y + 0x1_0000_0000 * k;
    assert x % 0x1_0000_0000 == y % 0x1_0000_0000;
  }

  /** Unchecked int addition: wrapping each partial sum is wrapping the whole sum. */
  lemma ToInt32Add(a: int, b: int)
    ensures ToInt32(ToInt32(a) + b) == ToInt32(a + b)
  {
    ToInt32Congruent(ToInt32(a) + b, a + b);
  }

  /** Unchecked 64-bit wrap-around, as C# long arithmetic does. */
  function ToInt64(x: int): (r: int)
    ensures IsInt64(r)
    ensures (r - x) % 0x1_0000_0000_0000_0000 == 0
    ensures IsInt64(x) ==> r == x
  {
    var low := x % 0x1_0000_0000_0000_0000;
    if low <= Int64Max then low else low - 0x1_0000_0000_0000_0000
  }

  function Min(a: int, b: int): int { if a <= b then a else b }
  function Max(a: int, b: int): int { if a <= b then b else a }

  function Pow10(k: nat): (r: nat)
    ensures r >= 1
  {
    if k == 0 then 1 else 10 * Pow10(k - 1)
  }

  // ---------------------------------------------------------------- decimal digits

  predicate IsDigit(c: char) { '0' <= c <= '9' }
  predicate AllDigits(s: string) { forall i :: 0 <= i < |s| ==> IsDigit(s[i]) }

  function DigitChar(d: int): (c: char)
    requires 0 <= d < 10
    ensures IsDigit(c) && c as int - '0' as int == d
  {
    (d + '0' as int) as char
  }

  /** The value of a string of decimal digits (leading zeros allowed, "" reads as 0). */
  function DecimalValue(s: string): nat
    requires AllDigits(s)
  {
    if s == [] then 0 else 10 * DecimalValue(s[..|s| - 1]) + (s[|s| - 1] as int - '0' as int)
  }

  /** The canonical decimal text of n, as n.ToString() prints a non-negative number. */
  function DecimalString(n: nat): (s: string)
    ensures |s| >= 1 && AllDigits(s)
    ensures |s| > 1 ==> s[0] != '0'
  {
    if n < 10 then [DigitChar(n)] else DecimalString(n / 10) + [DigitChar(n % 10)]
  }

  function Zeros(k: nat): (s: string)
    ensures |s| == k && AllDigits(s)
  {
    if k == 0 then [] else Zeros(k - 1) + ['0']
  }

  /** n.ToString("D" + width): the decimal text left-padded with zeros to at least width digits. */
  function PadDecimal(n: nat, width: nat): (s: string)
    ensures AllDigits(s) && |s| >= width
  {
    var d := DecimalString(n);
    if |d| < width then Zeros(width - |d|) + d else d
  }

  lemma {:induction false} DecimalRoundTrip(n: nat)
    ensures DecimalValue(DecimalString(n)) == n
  {
    if n >= 10 {
      var s := DecimalString(n);
      assert s[..|s| - 1] == DecimalString(n / 10);
      DecimalRoundTrip(n / 10);
    }
  }

  lemma {:induction false} DecimalValueZeroPrefix(k: nat, s: string)
    requires AllDigits(s)
    ensures AllDigits(Zeros(k) + s) && DecimalValue(Zeros(k) + s) == DecimalValue(s)
    decreases |s|
  {
    var z := Zeros(k) + s;
    if s == [] {
      assert z == Zeros(k);
      ZerosValue(k);
    } else {
      assert z[..|z| - 1] == Zeros(k) + s[..|s| - 1];
      DecimalValueZeroPrefix(k, s[..|s| - 1]);
    }
  }

  lemma {:induction false} ZerosValue(k: nat)
    ensures DecimalValue(Zeros(k)) == 0
  {
    if k > 0 {
      assert Zeros(k)[..k - 1] == Zeros(k - 1);
      ZerosValue(k - 1);
    }
  }

  /** Padding with zeros never changes the value that the digits denote. */
  lemma PadDecimalRoundTrip(n: nat, width: nat)
    ensures DecimalValue(PadDecimal(n, width)) == n
  {
    DecimalRoundTrip(n);
    if |DecimalString(n)| < width {
      DecimalValueZeroPrefix(width - |DecimalString(n)|, DecimalString(n));
    }
  }

  lemma {:induction false} DecimalStringLength(n: nat, k: nat)
    requires 1 <= k && n < Pow10(k)
    ensures |DecimalString(n)| <= k
  {
    if n >= 10 {
      DecimalStringLength(n / 10, k - 1);
    }
  }

  /** A number below 10^width pads to exactly width digits (the "D6" header of a blob file, say). */
  lemma PadDecimalExactWidth(n: nat, width: nat)
    requires 1 <= width && n < Pow10(width)
    ensures |PadDecimal(n, width)| == width
  {
    DecimalStringLength(n, width);
  }

  /** A number below 10^width is written in exactly width digits that read back as the number. */
  lemma PadDecimalFixed(n: nat, width: nat)
    requires 1 <= width && n < Pow10(width)
    ensures |PadDecimal(n, width)| == width && AllDigits(PadDecimal(n, width))
    ensures DecimalValue(PadDecimal(n, width)) == n
  {
    PadDecimalExactWidth(n, width);
    PadDecimalRoundTrip(n, width);
  }

  lemma AllDigitsConcat(a: string, b: string)
    requires AllDigits(a) && AllDigits(b)
    ensures AllDigits(a + b)
  {
    assert forall i :: 0 <= i < |a + b| ==> (a + b)[i] == if i < |a| then a[i] else b[i - |a|];
  }

  lemma {:induction false} DecimalValueBound(s: string)
    requires AllDigits(s)
    ensures DecimalValue(s) < Pow10(|s|)
  {
    if s != [] {
      DecimalValueBound(s[..|s| - 1]);
    }
  }

  /** A canonical decimal string is the only canonical text of its value. */
  lemma {:induction false} DecimalStringOfValue(s: string)
    requires AllDigits(s) && |s| >= 1 && (|s| > 1 ==> s[0] != '0')
    ensures DecimalString(DecimalValue(s)) == s
  {
    var p := s[..|s| - 1];
    var v := DecimalValue(s);
    if |s| == 1 {
      assert s[..0] == [];
    } else {
      assert p[0] == s[0];
      DecimalStringOfValue(p);
      LeadingDigitPositive(p);
      assert v / 10 == DecimalValue(p) && v % 10 == s[|s| - 1] as int - '0' as int;
      assert DecimalString(v) == DecimalString(v / 10) + [DigitChar(v % 10)];
      assert s == p + [s[|s| - 1]];
    }
  }

  lemma {:induction false} LeadingDigitPositive(s: string)
    requires AllDigits(s) && |s| >= 1 && s[0] != '0'
    ensures DecimalValue(s) >= 1
  {
    if |s| > 1 {
      assert s[..|s| - 1][0] == s[0];
      LeadingDigitPositive(s[..|s| - 1]);
    }
  }

  // ---------------------------------------------------------------- hexadecimal digits

  predicate IsHexDigit(c: char) { IsDigit(c) || 'a' <= c <= 'f' || 'A' <= c <= 'F' }
  predicate AllHex(s: string) { forall i :: 0 <= i < |s| ==> IsHexDigit(s[i]) }

  function HexDigitValue(c: char): (d: nat)
    requires IsHexDigit(c)
    ensures d < 16
  {
    if IsDigit(c) then c as int - '0' as int
    else if 'a' <= c <= 'f' then c as int - 'a' as int + 10
    else c as int - 'A' as int + 10
  }

  function HexValue(s: string): nat
    requires AllHex(s)
  {
    if s == [] then 0 else 16 * HexValue(s[..|s| - 1]) + HexDigitValue(s[|s| - 1])
  }

  /** Upper-case hexadecimal digit, as "X" formatting prints it. */
  function UpperHexChar(d: int): (c: char)
    requires 0 <= d < 16
    ensures IsHexDigit(c) && HexDigitValue(c) == d
    ensures !('a' <= c <= 'f')
  {
    if d < 10 then DigitChar(d) else (d - 10 + 'A' as int) as char
  }

  /** v.ToString("X4") for v < 0x10000: exactly four upper-case hex digits. */
  function Hex4(v: int): (s: string)
    requires 0 <= v < 0x10000
    ensures |s| == 4 && AllHex(s) && HexValue(s) == v
  {
    var s1 := [UpperHexChar(v / 4096)];
    var s2 := s1 + [UpperHexChar(v / 256 % 16)];
    var s3 := s2 + [UpperHexChar(v / 16 % 16)];
    var s := s3 + [UpperHexChar(v % 16)];
    HexAppend([], UpperHexChar(v / 4096));
    assert [] + [UpperHexChar(v / 4096)] == s1;
    HexAppend(s1, UpperHexChar(v / 256 % 16));
    HexAppend(s2, UpperHexChar(v / 16 % 16));
    HexAppend(s3, UpperHexChar(v % 16));
    HexSplit(v);
    s
  }

  lemma HexAppend(s: string, c: char)
    requires AllHex(s) && IsHexDigit(c)
    ensures AllHex(s + [c]) && HexValue(s + [c]) == 16 * HexValue(s) + HexDigitValue(c)
  {
    assert (s + [c])[..|s|] == s;
  }

  lemma HexSplit(v: int)
    requires 0 <= v < 0x10000
    ensures v / 4096 * 16 + v / 256 % 16 == v / 256
    ensures v / 256 * 16 + v / 16 % 16 == v / 16
    ensures v / 16 * 16 + v % 16 == v
  {
  }

  // ---------------------------------------------------------------- characters and case

  predicate IsAsciiLetter(c: char) { 'a' <= c <= 'z' || 'A' <= c <= 'Z' }

  function FoldChar(c: char): char
  {
    if 'A' <= c <= 'Z' then (c as int + 32) as char else c
  }

  /** Case folding used for the case-insensitive comparisons; it folds only ASCII letters. */
  function Fold(s: string): (r: string)
    ensures |r| == |s|
    ensures forall i :: 0 <= i < |s| ==> r[i] == FoldChar(s[i])
  {
    if s == [] then [] else [FoldChar(s[0])] + Fold(s[1..])
  }

  predicate EqualsIgnoreCase(a: string, b: string) { Fold(a) == Fold(b) }

  lemma FoldConcat(a: string, b: string)
    ensures Fold(a + b) == Fold(a) + Fold(b)
  {
    var whole, parts := Fold(a + b), Fold(a) + Fold(b);
    forall i | 0 <= i < |whole|
      ensures whole[i] == parts[i]
    {
      if i < |a| {
        assert (a + b)[i] == a[i];
      } else {
        assert (a + b)[i] == b[i - |a|];
      }
    }
  }

  /** U+0009 to U+000D and U+0020, the characters NumberStyles.AllowLeadingWhite admits. */
  predicate IsAsciiWhiteSpace(c: char)
  {
    c == ' ' || c == '\t' || c == '\n' || c == '\r' || c == '\U{B}' || c == '\U{C}'
  }

  /** char.IsWhiteSpace: the ASCII set, U+0085, and the space, line and paragraph separators. */
  predicate IsCharWhiteSpace(c: char)
  {
    IsAsciiWhiteSpace(c) || c == '\U{85}' || c == '\U{A0}' || c == '\U{1680}'
    || ('\U{2000}' <= c <= '\U{200A}') || c == '\U{2028}' || c == '\U{2029}'
    || c == '\U{202F}' || c == '\U{205F}' || c == '\U{3000}'
  }

  // ---------------------------------------------------------------- prefixes, Split and Join

  predicate StartsWith(s: string, prefix: string) { prefix <= s }
  predicate EndsWith(s: string, suffix: string) { |suffix| <= |s| && s[|s| - |suffix|..] == suffix }

  /** The first position of c in s. */
  function IndexOf(s: string, c: char): (i: nat)
    requires c in s
    ensures i < |s| && s[i] == c && c !in s[..i]
  {
    if s[0] == c then 0 else assert s == [s[0]] + s[1..]; 1 + IndexOf(s[1..], c)
  }

  /** string.Join(sep, parts): the parts with one separator between neighbours. */
  function Join(parts: seq<string>, sep: char): string
    requires |parts| >= 1
  {
    if |parts| == 1 then parts[0] else parts[0] + [sep] + Join(parts[1..], sep)
  }

  /** string.Split(sep): the parts between the separators, left to right. */
  function Split(s: string, sep: char): (parts: seq<string>)
    ensures |parts| >= 1
    decreases |s|
  {
    if sep !in s then [s]
    else
      var i := IndexOf(s, sep);
      [s[..i]] + Split(s[i + 1..], sep)
  }

  /** Every part is free of the separator, and joining the parts with it gives the text back. */
  lemma {:induction false} SplitParts(s: string, sep: char)
    ensures forall i :: 0 <= i < |Split(s, sep)| ==> sep !in Split(s, sep)[i]
    ensures Join(Split(s, sep), sep) == s
    decreases |s|
  {
    if sep in s {
      var i := IndexOf(s, sep);
      SplitParts(s[i + 1..], sep);
      assert Split(s, sep)[1..] == Split(s[i + 1..], sep);
      CutAt(s, i);
    }
  }

  lemma SeqAssoc<T>(a: seq<T>, b: seq<T>, c: seq<T>)
    ensures a + (b + c) == (a + b) + c
  {
  }

  lemma CutAt<T>(s: seq<T>, i: int)
    requires 0 <= i < |s|
    ensures s == s[..i] + [s[i]] + s[i + 1..]
  {
  }

  /** Splitting the join of separator-free parts gives the parts back. */
  lemma {:induction false} SplitJoin(parts: seq<string>, sep: char)
    requires |parts| >= 1
    requires forall i :: 0 <= i < |parts| ==> sep !in parts[i]
    ensures Split(Join(parts, sep), sep) == parts
  {
    if |parts| > 1 {
      var s := Join(parts, sep);
      var p := parts[0];
      assert s[|p|] == sep && s[..|p|] == p;
      var i := IndexOf(s, sep);
      assert i == |p|;
      assert s[i + 1..] == Join(parts[1..], sep);
      SplitJoin(parts[1..], sep);
    }
  }

  /** Split gives one part more than the text has separators. */
  lemma {:induction false} SplitCount(s: string, sep: char)
    ensures |Split(s, sep)| == multiset(s)[sep] + 1
    decreases |s|
  {
    if sep in s {
      var i := IndexOf(s, sep);
      SplitCount(s[i + 1..], sep);
      CutAt(s, i);
      assert multiset(s[..i])[sep] == 0;
      assert multiset(s) == multiset(s[..i]) + multiset([sep]) + multiset(s[i + 1..]);
    } else {
      assert multiset(s)[sep] == 0;
    }
  }

  /** The join holds a separator between each pair of neighbours, besides those inside the parts. */
  lemma {:induction false} JoinCountAtLeast(parts: seq<string>, sep: char, k: nat)
    requires |parts| >= 1 && k < |parts|
    ensures multiset(Join(parts, sep))[sep] >= |parts| - 1 + multiset(parts[k])[sep]
  {
    if |parts| > 1 {
      var rest := Join(parts[1..], sep);
      assert Join(parts, sep) == parts[0] + [sep] + rest;
      assert multiset(Join(parts, sep)) == multiset(parts[0]) + multiset([sep]) + multiset(rest);
      if k == 0 {
        JoinCountAtLeast(parts[1..], sep, 0);
      } else {
        JoinCountAtLeast(parts[1..], sep, k - 1);
        assert parts[1..][k - 1] == parts[k];
      }
    }
  }

  function TrimStart(s: string, white: char -> bool): (r: string)
    ensures |r| <= |s| && r == s[|s| - |r|..]
  {
    if s != [] && white(s[0]) then TrimStart(s[1..], white) else s
  }

  function TrimEnd(s: string, white: char -> bool): (r: string)
    ensures r <= s
  {
    if s != [] && white(s[|s| - 1]) then TrimEnd(s[..|s| - 1], white) else s
  }

  /** Trimming both ends of the given white space: String.Trim() with IsCharWhiteSpace. */
  function Trim(s: string, white: char -> bool): string
  {
    TrimEnd(TrimStart(s, white), white)
  }

  /** A text that does not start with whitespace keeps its start. */
  lemma TrimStartKeeps(s: string, white: char -> bool)
    requires s != [] && !white(s[0])
    ensures TrimStart(s, white) == s
  {
  }

  /** A text that does not end with whitespace keeps its end. */
  lemma TrimEndKeeps(s: string, white: char -> bool)
    requires s != [] && !white(s[|s| - 1])
    ensures TrimEnd(s, white) == s
  {
  }

  /** The trimmed text neither starts nor ends with whitespace. */
  lemma TrimNoSpaceAtEnds(s: string, white: char -> bool)
    ensures Trim(s, white) == [] || (!white(Trim(s, white)[0]) && !white(Trim(s, white)[|Trim(s, white)| - 1]))
  {
    var t := TrimStart(s, white);
    TrimStartNoLead(s, white);
    TrimEndNoLead(t, white);
    assert Trim(s, white) == TrimEnd(t, white);
  }

  /** Leading white space of any length is trimmed away, and nothing more. */
  lemma {:induction false} TrimStartPadded(pre: string, rest: string, white: char -> bool)
    requires forall i :: 0 <= i < |pre| ==> white(pre[i])
    requires rest != [] && !white(rest[0])
    ensures TrimStart(pre + rest, white) == rest
  {
    if pre != [] {
      assert (pre + rest)[1..] == pre[1..] + rest;
      TrimStartPadded(pre[1..], rest, white);
    }
  }

  /** Trailing white space of any length is trimmed away, and nothing more. */
  lemma {:induction false} TrimEndPadded(rest: string, post: string, white: char -> bool)
    requires forall i :: 0 <= i < |post| ==> white(post[i])
    requires rest != [] && !white(rest[|rest| - 1])
    ensures TrimEnd(rest + post, white) == rest
  {
    if post != [] {
      var shorter := post[..|post| - 1];
      assert (rest + post)[..|rest + post| - 1] == rest + shorter;
      TrimEndPadded(rest, shorter, white);
    }
  }

  /** Trim strips exactly the white padding around a text that neither starts nor ends with white space. */
  lemma TrimPadded(pre: string, n: string, post: string, white: char -> bool)
    requires forall i :: 0 <= i < |pre| ==> white(pre[i])
    requires forall i :: 0 <= i < |post| ==> white(post[i])
    requires n != [] && !white(n[0]) && !white(n[|n| - 1])
    ensures Trim(pre + n + post, white) == n
  {
    assert pre + n + post == pre + (n + post);
    TrimStartPadded(pre, n + post, white);
    TrimEndPadded(n, post, white);
  }

  lemma {:induction false} TrimStartNoLead(s: string, white: char -> bool)
    ensures TrimStart(s, white) == [] || !white(TrimStart(s, white)[0])
  {
    if s != [] && white(s[0]) { TrimStartNoLead(s[1..], white); }
  }

  lemma {:induction false} TrimEndNoLead(s: string, white: char -> bool)
    ensures s == [] || !white(s[0]) ==> TrimEnd(s, white) == [] || !white(TrimEnd(s, white)[0])
    ensures TrimEnd(s, white) == [] || !white(TrimEnd(s, white)[|TrimEnd(s, white)| - 1])
  {
    if s != [] && white(s[|s| - 1]) { TrimEndNoLead(s[..|s| - 1], white); }
  }
}
