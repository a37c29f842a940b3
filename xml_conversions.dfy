/*
 * Number conversions of XML string values
 * (Lcl.EventLog/Utilities/XmlStringValueConversions.cs): a null or empty
 * text is no value; a text starting with "0x" or "0X" is hexadecimal; any
 * other text must be plain decimal digits (no sign, no whitespace).
 */
module XmlConversions {
  import opened Common

  /** 2^64: the number of ulong values. */
  const UInt64Limit: int := 0x1_0000_0000_0000_0000
  const UInt64Max: int := UInt64Limit - 1

  predicate HasHexPrefix(s: string)
  {
    StartsWith(s, "0x") || StartsWith(s, "0X")
  }

  /**
   * UInt64.Parse(digits, NumberStyles.AllowHexSpecifier): hex digits only,
   * at least one; leading zeros are skipped, so only a value of 2^64 or more
   * overflows.
   */
  function ParseHex(digits: string): (r: Result<int>)
    ensures r.Ok? <==> digits != [] && AllHex(digits) && HexValue(digits) < UInt64Limit
    ensures r.Ok? ==> r.value == HexValue(digits) && 0 <= r.value < UInt64Limit
    ensures r.Err? ==> (r.error == OverflowException <==> digits != [] && AllHex(digits))
    ensures r.Err? ==> r.error == FormatException || r.error == OverflowException
  {
    if digits == [] || !AllHex(digits) then Err(FormatException)
    else if HexValue(digits) >= UInt64Limit then Err(OverflowException)
    else Ok(HexValue(digits))
  }

  /** Parse(digits, NumberStyles.None) into a type whose largest value is max. */
  function ParseDecimal(digits: string, max: nat): (r: Result<int>)
    ensures r.Ok? <==> digits != [] && AllDigits(digits) && DecimalValue(digits) <= max
    ensures r.Ok? ==> r.value == DecimalValue(digits) && 0 <= r.value <= max
    ensures r.Err? ==> (r.error == OverflowException <==> digits != [] && AllDigits(digits))
    ensures r.Err? ==> r.error == FormatException || r.error == OverflowException
  {
    if digits == [] || !AllDigits(digits) then Err(FormatException)
    else if DecimalValue(digits) > max then Err(OverflowException)
    else Ok(DecimalValue(digits))
  }

  /** AsUnsigned: null for a null or empty text, else the ulong it denotes, or the parse exception. */
  function AsUnsigned(txt: Option<string>): (r: Result<Option<int>>)
    ensures r == Ok(None) <==> txt.None? || txt.value == ""
    ensures r.Ok? && r.value.Some? ==> 0 <= r.value.value <= UInt64Max
    ensures r.Err? ==> r.error == FormatException || r.error == OverflowException
  {
    if txt.None? || txt.value == "" then Ok(None)
    else if HasHexPrefix(txt.value) then
      var v :- ParseHex(txt.value[2..]);
      Ok(Some(v))
    else
      var v :- ParseDecimal(txt.value, UInt64Max);
      Ok(Some(v))
  }

  /**
   * AsInteger: like AsUnsigned, but into a long. Hex digits give the 64 bits
   * of the value, read as two's complement (so 16 F's are -1); a decimal
   * text must not exceed Int64.MaxValue.
   */
  function AsInteger(txt: Option<string>): (r: Result<Option<int>>)
    ensures r == Ok(None) <==> txt.None? || txt.value == ""
    ensures r.Ok? && r.value.Some? ==> IsInt64(r.value.value)
    ensures r.Err? ==> r.error == FormatException || r.error == OverflowException
  {
    if txt.None? || txt.value == "" then Ok(None)
    else if HasHexPrefix(txt.value) then
      var v :- ParseHex(txt.value[2..]);
      Ok(Some(ToInt64(v)))
    else
      var v :- ParseDecimal(txt.value, Int64Max);
      Ok(Some(v))
  }

  /** A decimal text never carries the hex prefix: its second character is a digit, not an 'x'. */
  lemma DigitsNotHex(s: string)
    requires AllDigits(s)
    ensures !HasHexPrefix(s)
  {
    if |s| >= 2 {
      assert IsDigit(s[1]);
    }
  }

  /** Every ulong reads back from its decimal text. */
  lemma AsUnsignedDecimal(n: nat)
    requires n <= UInt64Max
    ensures AsUnsigned(Some(DecimalString(n))) == Ok(Some(n))
  {
    DigitsNotHex(DecimalString(n));
    DecimalRoundTrip(n);
  }

  /** Hex digits after either prefix read back as their value when it fits in 64 bits. */
  lemma AsUnsignedHex(prefix: string, h: string)
    requires (prefix == "0x" || prefix == "0X") && h != [] && AllHex(h) && HexValue(h) < UInt64Limit
    ensures AsUnsigned(Some(prefix + h)) == Ok(Some(HexValue(h)))
    ensures AsInteger(Some(prefix + h)) == Ok(Some(ToInt64(HexValue(h))))
  {
    assert (prefix + h)[..2] == prefix && (prefix + h)[2..] == h;
  }

  /** A bare prefix has no digits: FormatException. */
  lemma BarePrefixFails()
    ensures AsUnsigned(Some("0x")) == Err(FormatException)
    ensures AsInteger(Some("0X")) == Err(FormatException)
  {
    assert "0x"[2..] == [];
    assert "0X"[2..] == [];
  }

  /** NumberStyles.None admits no sign and no whitespace. */
  lemma NoSignNoSpace(s: string)
    requires s != [] && AllDigits(s)
    ensures AsInteger(Some("-" + s)) == Err(FormatException)
    ensures AsUnsigned(Some(" " + s)) == Err(FormatException)
  {
    assert !IsDigit(("-" + s)[0]) && !IsDigit((" " + s)[0]);
  }

  /**
   * The two conversions agree on every value that is a long: for a hex text
   * AsInteger is the two's complement reading of AsUnsigned's ulong, and a
   * decimal text parses to the same value unless it exceeds Int64.MaxValue,
   * where AsInteger overflows.
   */
  lemma IntegerFromUnsigned(txt: Option<string>)
    ensures AsUnsigned(txt).Err? ==> AsInteger(txt) == AsUnsigned(txt)
    ensures AsUnsigned(txt).Ok? && AsUnsigned(txt).value.Some? ==>
              var u := AsUnsigned(txt).value.value;
              if HasHexPrefix(txt.value) then AsInteger(txt) == Ok(Some(ToInt64(u)))
              else if u <= Int64Max then AsInteger(txt) == Ok(Some(u))
              else AsInteger(txt) == Err(OverflowException)
  {
  }

  /** The values the unit tests check: 0xa3fc is 41980; a ulong with the top bit set survives. */
  lemma ConversionExamples()
    ensures AsInteger(Some("0xa3fc")) == Ok(Some(41980))
    ensures AsUnsigned(Some("0x8020000000000000")) == Ok(Some(0x8020000000000000))
  {
    HexA3fc();
    Hex8020();
    AsUnsignedHex("0x", "a3fc");
    AsUnsignedHex("0x", "8020000000000000");
  }

  /** Sixteen F's are the largest ulong, which AsInteger reads as -1. */
  lemma AllOnesIsMinusOne()
    ensures AsUnsigned(Some("0xFFFFFFFFFFFFFFFF")) == Ok(Some(UInt64Max))
    ensures AsInteger(Some("0xFFFFFFFFFFFFFFFF")) == Ok(Some(-1))
  {
    HexAllOnes();
    AsUnsignedHex("0x", "FFFFFFFFFFFFFFFF");
  }

  /** The digits of 0xa3fc. */
  lemma HexA3fc()
    ensures AllHex("a3fc") && HexValue("a3fc") == 0xa3fc
  {
    HexChunk("", 0, 'a', '3', 'f', 'c');
    assert "" + ['a', '3', 'f', 'c'] == "a3fc";
  }

  /** The digits of 0x8020000000000000, four at a time. */
  lemma Hex8020()
    ensures AllHex("8020000000000000") && HexValue("8020000000000000") == 0x8020000000000000
  {
    HexChunk("", 0, '8', '0', '2', '0');
    assert "" + ['8', '0', '2', '0'] == "8020";
    HexChunk("8020", 0x8020, '0', '0', '0', '0');
    assert "8020" + ['0', '0', '0', '0'] == "80200000";
    HexChunk("80200000", 0x80200000, '0', '0', '0', '0');
    assert "80200000" + ['0', '0', '0', '0'] == "802000000000";
    HexChunk("802000000000", 0x802000000000, '0', '0', '0', '0');
    assert "802000000000" + ['0', '0', '0', '0'] == "8020000000000000";
  }

  /** The digits of sixteen F's, four at a time. */
  lemma HexAllOnes()
    ensures AllHex("FFFFFFFFFFFFFFFF") && HexValue("FFFFFFFFFFFFFFFF") == 0xFFFFFFFFFFFFFFFF
  {
    HexChunk("", 0, 'F', 'F', 'F', 'F');
    assert "" + ['F', 'F', 'F', 'F'] == "FFFF";
    HexChunk("FFFF", 0xFFFF, 'F', 'F', 'F', 'F');
    assert "FFFF" + ['F', 'F', 'F', 'F'] == "FFFFFFFF";
    HexChunk("FFFFFFFF", 0xFFFFFFFF, 'F', 'F', 'F', 'F');
    assert "FFFFFFFF" + ['F', 'F', 'F', 'F'] == "FFFFFFFFFFFF";
    HexChunk("FFFFFFFFFFFF", 0xFFFFFFFFFFFF, 'F', 'F', 'F', 'F');
    assert "FFFFFFFFFFFF" + ['F', 'F', 'F', 'F'] == "FFFFFFFFFFFFFFFF";
  }

  /** Four more hex digits after a prefix of known value. */
  lemma HexChunk(s: string, v: int, a: char, b: char, c: char, d: char)
    requires AllHex(s) && HexValue(s) == v
    requires IsHexDigit(a) && IsHexDigit(b) && IsHexDigit(c) && IsHexDigit(d)
    ensures AllHex(s + [a, b, c, d])
    ensures HexValue(s + [a, b, c, d])
            == (((v * 16 + HexDigitValue(a)) * 16 + HexDigitValue(b)) * 16 + HexDigitValue(c)) * 16 + HexDigitValue(d)
  {
    HexAppend(s, a);
    HexAppend(s + [a], b);
    assert s + [a] + [b] == s + [a, b];
    HexAppend(s + [a, b], c);
    assert s + [a, b] + [c] == s + [a, b, c];
    HexAppend(s + [a, b, c], d);
    assert s + [a, b, c] + [d] == s + [a, b, c, d];
  }
}
