/*
 * Control-character escaping for the XML that EventLogRecord.ToXml()
 * produces (Lcl.EventLog/Utilities/XmlFixer.cs, and the identical copy in
 * Lcl.EventLog/Utilities/XmlUtilities.cs): every character in 0x01-0x08,
 * 0x0B-0x0C or 0x0E-0x1F becomes "&#x" + four upper-case hex digits + ";";
 * NUL, TAB, LF, CR and everything else is copied.
 */
module XmlFixer {
  import opened Common

  /** The characters FixXml escapes. */
  predicate IsBadChar(c: char)
  {
    (0x00 < c as int < 0x09) || (0x0A < c as int < 0x0D) || (0x0D < c as int < 0x20)
  }

  /** The Any test that decides whether the text needs patching at all. */
  predicate HasBad(s: string)
  {
    exists i | 0 <= i < |s| :: IsBadChar(s[i])
  }

  /** The entity that replaces a bad character. */
  function Escape(c: char): (e: string)
    requires IsBadChar(c)
    ensures |e| == 8 && e[..3] == "&#x" && e[7] == ';'
    ensures AllHex(e[3..7]) && HexValue(e[3..7]) == c as int
  {
    var e := "&#x" + Hex4(c as int) + ";";
    assert e[3..7] == Hex4(c as int);
    e
  }

  /** What one character of the input becomes. */
  function Piece(c: char): string
  {
    if IsBadChar(c) then Escape(c) else [c]
  }

  /** The patched text: each character replaced by its piece, in order. */
  function Fixed(s: string): (r: string)
    ensures |s| <= |r|
  {
    if s == [] then [] else Fixed(s[..|s| - 1]) + Piece(s[|s| - 1])
  }

  /** The number of characters FixXml escapes. */
  function CountBad(s: string): nat
  {
    if s == [] then 0 else CountBad(s[..|s| - 1]) + (if IsBadChar(s[|s| - 1]) then 1 else 0)
  }

  /**
   * FixXml: the text itself when it holds no bad character, otherwise the
   * StringBuilder loop that appends each character's piece.
   */
  method FixXml(xml: string) returns (r: string)
    ensures r == Fixed(xml)
  {
    if !HasBad(xml) {
      FixedWithoutBad(xml);
      return xml;
    }
    var sb := "";
    for i := 0 to |xml|
      invariant sb == Fixed(xml[..i])
    {
      var ch := xml[i];
      if IsBadChar(ch) {
        sb := sb + "&#x" + Hex4(ch as int) + ";";
      } else {
        sb := sb + [ch];
      }
      assert xml[..i + 1][..i] == xml[..i];
    }
    assert xml[..|xml|] == xml;
    r := sb;
  }

  /** Without bad characters, FixXml returns its input. */
  lemma {:induction false} FixedWithoutBad(s: string)
    requires !HasBad(s)
    ensures Fixed(s) == s
  {
    if s != [] {
      var init := s[..|s| - 1];
      assert !HasBad(init) by {
        forall i | 0 <= i < |init| ensures !IsBadChar(init[i]) {
          assert init[i] == s[i];
        }
      }
      FixedWithoutBad(init);
      assert s == init + [s[|s| - 1]];
    }
  }

  /** Each escaped character adds seven characters: the output length is |s| + 7 * CountBad(s). */
  lemma {:induction false} FixedLength(s: string)
    ensures |Fixed(s)| == |s| + 7 * CountBad(s)
  {
    if s != [] {
      FixedLength(s[..|s| - 1]);
    }
  }

  /** A text has a bad character exactly when it has a positive count of them. */
  lemma {:induction false} CountBadPositive(s: string)
    ensures CountBad(s) > 0 <==> HasBad(s)
  {
    if s != [] {
      var init := s[..|s| - 1];
      CountBadPositive(init);
      if HasBad(init) {
        var i :| 0 <= i < |init| && IsBadChar(init[i]);
        assert s[i] == init[i];
      }
      if HasBad(s) && !IsBadChar(s[|s| - 1]) {
        var i :| 0 <= i < |s| && IsBadChar(s[i]);
        assert init[i] == s[i];
      }
    }
  }

  /** FixXml leaves a text unchanged exactly when it has no bad character. */
  lemma FixedUnchanged(s: string)
    ensures Fixed(s) == s <==> !HasBad(s)
  {
    FixedLength(s);
    CountBadPositive(s);
    if !HasBad(s) {
      FixedWithoutBad(s);
    }
  }

  /** No piece holds a bad character: neither the entity text nor a copied good character. */
  lemma PieceClean(c: char)
    ensures !HasBad(Piece(c))
  {
    if IsBadChar(c) {
      var e := Escape(c);
      forall i | 3 <= i < 7 ensures !IsBadChar(e[i]) {
        assert IsHexDigit(e[3..7][i - 3]);
      }
    }
  }

  lemma NoBadConcat(a: string, b: string)
    requires !HasBad(a) && !HasBad(b)
    ensures !HasBad(a + b)
  {
    forall i | 0 <= i < |a + b| ensures !IsBadChar((a + b)[i]) {
      if i < |a| {
        assert (a + b)[i] == a[i];
      } else {
        assert (a + b)[i] == b[i - |a|];
      }
    }
  }

  /** The output of FixXml holds no bad character. */
  lemma {:induction false} FixedClean(s: string)
    ensures !HasBad(Fixed(s))
  {
    if s != [] {
      FixedClean(s[..|s| - 1]);
      PieceClean(s[|s| - 1]);
      NoBadConcat(Fixed(s[..|s| - 1]), Piece(s[|s| - 1]));
    }
  }

  /** FixXml is idempotent. */
  lemma FixedIdempotent(s: string)
    ensures Fixed(Fixed(s)) == Fixed(s)
  {
    FixedClean(s);
    FixedWithoutBad(Fixed(s));
  }

  /** Characters are patched independently and kept in order: Fixed distributes over concatenation. */
  lemma {:induction false} FixedConcat(a: string, b: string)
    ensures Fixed(a + b) == Fixed(a) + Fixed(b)
    decreases |b|
  {
    if b == [] {
      assert a + b == a;
    } else {
      var init := b[..|b| - 1];
      assert (a + b)[..|a + b| - 1] == a + init;
      FixedConcat(a, init);
      SeqAssoc(Fixed(a), Fixed(init), Piece(b[|b| - 1]));
    }
  }
}

/*
 * Lcl.EventLog/Utilities/XmlUtilities.cs carries a second copy of FixXml,
 * character for character the same algorithm; it is modelled by delegating.
 */
module XmlUtilities {
  import opened XmlFixer

  /** XmlUtilities.FixXml: the same patched text as XmlFixer.FixXml, idempotent. */
  method FixXml(xml: string) returns (r: string)
    ensures r == Fixed(xml) && Fixed(r) == r
  {
    r := XmlFixer.FixXml(xml);
    FixedIdempotent(xml);
  }
}
