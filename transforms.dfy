/*
 * The string transforms a field query can apply to the value it extracts
 * (Lcl.EventLog/Utilities/Xml/TrxNotEmpty.cs and TrxUnsigned.cs), and the
 * registry that finds them by name, ignoring case
 * (Lcl.EventLog/Utilities/Xml/TransformRegistry.cs).
 */
module FieldTransforms {
  import opened Common
  import XmlConversions

  /** The transforms of the default registry. */
  datatype FieldTransform = NotEmpty | Unsigned
  {
    /** The name the transform is registered under. */
    function Name(): string
    {
      match this
      case NotEmpty => "notempty"
      case Unsigned => "unsigned"
    }

    /** Transform(value, caller): the new value, or the exception it throws. */
    function Apply(value: string): (r: Result<string>)
      ensures r.Err? ==> r.error == InvalidOperation
      ensures r.Ok? ==> (r.value == "" <==> value == "")
      ensures NotEmpty? ==> (r.Ok? <==> value != "")
      ensures Unsigned? && r.Ok? && value != "" ==> AllDigits(r.value)
    {
      match this
      case NotEmpty => NotEmptyTransform(value)
      case Unsigned => UnsignedTransform(value)
    }
  }

  /** TrxNotEmpty: the value itself, and an InvalidOperationException for an empty one. */
  function NotEmptyTransform(value: string): (r: Result<string>)
    ensures r.Ok? <==> value != ""
    ensures r.Ok? ==> r.value == value
    ensures r.Err? ==> r.error == InvalidOperation
  {
    if value == "" then Err(InvalidOperation) else Ok(value)
  }

  /**
   * TrxUnsigned: an empty value stays empty; "0x"/"0X" + hex digits and plain
   * decimal digits become the decimal text of the ulong they denote; any
   * other text, or one past UInt64.MaxValue, is an InvalidOperationException.
   */
  function UnsignedTransform(value: string): (r: Result<string>)
    ensures value == "" ==> r == Ok("")
    ensures r.Ok? && value != "" ==> AllDigits(r.value) && r.value != ""
    ensures r.Err? ==> r.error == InvalidOperation
  {
    if value == "" then Ok(value)
    else if XmlConversions.HasHexPrefix(value) then
      match XmlConversions.ParseHex(value[2..])
      case Ok(n) => Ok(DecimalString(n))
      case Err(_) => Err(InvalidOperation)
    else
      match XmlConversions.ParseDecimal(value, XmlConversions.UInt64Max)
      case Ok(n) => Ok(DecimalString(n))
      case Err(_) => Err(InvalidOperation)
  }

  /**
   * TrxUnsigned accepts exactly the non-empty texts AsUnsigned converts,
   * and gives the decimal text of the same number.
   */
  lemma UnsignedAgreesWithConversion(value: string)
    ensures value == "" ==> UnsignedTransform(value) == Ok("") && XmlConversions.AsUnsigned(Some(value)) == Ok(None)
    ensures value != "" ==> (UnsignedTransform(value).Ok? <==> XmlConversions.AsUnsigned(Some(value)).Ok?)
    ensures value != "" && UnsignedTransform(value).Ok? ==>
              UnsignedTransform(value).value == DecimalString(XmlConversions.AsUnsigned(Some(value)).value.value)
    ensures UnsignedTransform(value).Err? ==> UnsignedTransform(value).error == InvalidOperation
  {
  }

  /** A successful TrxUnsigned result is empty or the canonical decimal text of a ulong. */
  lemma UnsignedCanonical(value: string)
    requires UnsignedTransform(value).Ok? && UnsignedTransform(value).value != ""
    ensures var w := UnsignedTransform(value).value;
            AllDigits(w) && (|w| > 1 ==> w[0] != '0') && DecimalValue(w) <= XmlConversions.UInt64Max
  {
    var w := UnsignedTransform(value).value;
    var n := if XmlConversions.HasHexPrefix(value) then XmlConversions.ParseHex(value[2..]).value
             else XmlConversions.ParseDecimal(value, XmlConversions.UInt64Max).value;
    assert w == DecimalString(n);
    DecimalRoundTrip(n);
  }

  /** Applying TrxUnsigned to its own output changes nothing. */
  lemma UnsignedIdempotent(value: string)
    requires UnsignedTransform(value).Ok?
    ensures UnsignedTransform(UnsignedTransform(value).value) == UnsignedTransform(value)
  {
    var w := UnsignedTransform(value).value;
    if w != "" {
      UnsignedCanonical(value);
      XmlConversions.DigitsNotHex(w);
      DecimalStringOfValue(w);
    }
  }

  /** Both transforms keep a non-empty value non-empty. */
  lemma KeepsNonEmpty(t: FieldTransform, value: string)
    requires value != "" && t.Apply(value).Ok?
    ensures t.Apply(value).value != ""
  {
  }

  /** The hex value of the unit tests: "0xa3fc" becomes "41980"; a signed text is refused. */
  lemma UnsignedExamples()
    ensures UnsignedTransform("0xa3fc") == Ok("41980")
    ensures UnsignedTransform("-1") == Err(InvalidOperation)
  {
    var hex := "0xa3fc";
    assert XmlConversions.HasHexPrefix(hex) by {
      assert hex[..2] == "0x";
    }
    assert hex[2..] == "a3fc";
    XmlConversions.HexA3fc();
    DecimalString41980();
    var signed := "-1";
    assert signed[0] == '-';
    assert !XmlConversions.HasHexPrefix(signed) && !IsDigit(signed[0]);
  }

  /** The decimal text of 41980, one digit at a time. */
  lemma DecimalString41980()
    ensures DecimalString(41980) == "41980"
  {
    assert DecimalString(4) == "4";
    assert DecimalString(41) == "4" + [DigitChar(1)];
    assert DecimalString(419) == "41" + [DigitChar(9)];
    assert DecimalString(4198) == "419" + [DigitChar(8)];
    assert DecimalString(41980) == "4198" + [DigitChar(0)];
  }

  // ---------------------------------------------------------------- TransformRegistry

  /** Dictionary lookup under StringComparer.OrdinalIgnoreCase: the key is the folded name. */
  function Lookup(entries: map<string, FieldTransform>, name: string): (r: Option<FieldTransform>)
    ensures r.Some? <==> Fold(name) in entries
    ensures r.Some? ==> r.value in entries.Values
  {
    if Fold(name) in entries then Some(entries[Fold(name)]) else None
  }

  /** Every key is the folded name of the transform filed under it. */
  ghost predicate WellKeyed(entries: map<string, FieldTransform>)
  {
    forall k :: k in entries ==> k == Fold(entries[k].Name())
  }

  /** The registry Default builds: TrxNotEmpty, then TrxUnsigned. */
  function DefaultEntries(): map<string, FieldTransform>
  {
    map["notempty" := NotEmpty, "unsigned" := Unsigned]
  }

  /** A transform's own name folds to itself: the names are lower case. */
  lemma NameFolded(t: FieldTransform)
    ensures Fold(t.Name()) == t.Name()
  {
    var n := t.Name();
    forall i | 0 <= i < |n| ensures Fold(n)[i] == n[i] {
      assert !('A' <= n[i] <= 'Z');
    }
  }

  class TransformRegistry {
    var entries: map<string, FieldTransform>

    ghost predicate Valid()
      reads this
    {
      WellKeyed(entries)
    }

    /** A new registry is empty. */
    constructor()
      ensures Valid() && entries == map[]
    {
      entries := map[];
    }

    /** Register: files trx under its name, replacing any transform whose name differs only in case. */
    method Register(trx: FieldTransform) returns (r: TransformRegistry)
      requires Valid()
      modifies this
      ensures r == this && Valid()
      ensures entries == old(entries)[Fold(trx.Name()) := trx]
    {
      entries := entries[Fold(trx.Name()) := trx];
      r := this;
    }

    /** Find: the transform registered under a name equal to transformName ignoring case, if any. */
    function Find(transformName: string): (r: Option<FieldTransform>)
      reads this
      requires Valid()
      ensures r.Some? ==> EqualsIgnoreCase(r.value.Name(), transformName)
      ensures r.Some? <==> exists k :: k in entries && k == Fold(transformName)
      ensures r == Lookup(entries, transformName)
    {
      Lookup(entries, transformName)
    }
  }

  /** TransformRegistry.Default: a new registry with TrxNotEmpty and TrxUnsigned registered. */
  method NewDefault() returns (r: TransformRegistry)
    ensures fresh(r) && r.Valid() && r.entries == DefaultEntries()
  {
    r := new TransformRegistry();
    NameFolded(NotEmpty);
    NameFolded(Unsigned);
    r := r.Register(NotEmpty);
    r := r.Register(Unsigned);
  }

  /** After Register, Find sees the new transform under every casing of its name, and nothing else changes. */
  lemma FindAfterRegister(entries: map<string, FieldTransform>, trx: FieldTransform, name: string)
    ensures EqualsIgnoreCase(name, trx.Name()) ==> Lookup(entries[Fold(trx.Name()) := trx], name) == Some(trx)
    ensures !EqualsIgnoreCase(name, trx.Name()) ==> Lookup(entries[Fold(trx.Name()) := trx], name) == Lookup(entries, name)
  {
  }

  /** The default registry finds both transforms whatever the case, and nothing else. */
  lemma DefaultFinds(name: string)
    ensures EqualsIgnoreCase(name, "notempty") ==> Lookup(DefaultEntries(), name) == Some(NotEmpty)
    ensures EqualsIgnoreCase(name, "unsigned") ==> Lookup(DefaultEntries(), name) == Some(Unsigned)
    ensures !EqualsIgnoreCase(name, "notempty") && !EqualsIgnoreCase(name, "unsigned") ==> Lookup(DefaultEntries(), name) == None
  {
    NameFolded(NotEmpty);
    NameFolded(Unsigned);
    assert "notempty"[0] != "unsigned"[0];
  }
}

/*
 * One field query of an event XML document
 * (Lcl.EventLog/Utilities/Xml/XmlEventQuery.cs): an expression for the
 * dissector, then the comma separated transforms applied left to right.
 */
module EventQueries {
  import opened Common
  import XmlDissector
  import opened FieldTransforms

  datatype XmlEventQuery = XmlEventQuery(fieldLabel: string, expression: string, transforms: string)

  /** The constructor: a null transforms list is the empty one. */
  function NewQuery(fieldLabel: string, expression: string, transforms: Option<string>): (q: XmlEventQuery)
    ensures q.fieldLabel == fieldLabel && q.expression == expression
    ensures transforms.Some? ==> q.transforms == transforms.value
    ensures transforms.None? ==> q.transforms == ""
  {
    XmlEventQuery(fieldLabel, expression, if transforms.Some? then transforms.value else "")
  }

  /** The trimmed, non-empty parts in order. */
  function NonEmptyTrimmed(parts: seq<string>): seq<string>
  {
    if parts == [] then []
    else (if Trim(parts[0], IsCharWhiteSpace) == "" then [] else [Trim(parts[0], IsCharWhiteSpace)]) + NonEmptyTrimmed(parts[1..])
  }

  /**
   * Transforms.Split(',') with each name trimmed of char.IsWhiteSpace, as
   * String.Trim does, and the empty names dropped.
   */
  function TransformNames(transforms: string): seq<string>
  {
    NonEmptyTrimmed(Split(transforms, ','))
  }

  /** A name as it can appear in the list: non-empty, comma free, no whitespace at either end. */
  predicate CleanName(n: string)
  {
    n != "" && ',' !in n && !IsCharWhiteSpace(n[0]) && !IsCharWhiteSpace(n[|n| - 1])
  }

  /** The transforms in order, stopping at the first unknown name or failing transform. */
  function ApplyAll(value: string, names: seq<string>, entries: map<string, FieldTransform>): (r: Result<string>)
    ensures names == [] ==> r == Ok(value)
    ensures r.Err? ==> r.error == KeyNotFound || r.error == InvalidOperation
    ensures (exists i :: 0 <= i < |names| && Lookup(entries, names[i]).None?) ==> r.Err?
    decreases |names|
  {
    if names == [] then Ok(value)
    else
      match Lookup(entries, names[0])
      case None => Err(KeyNotFound)
      case Some(t) =>
        var next :- t.Apply(value);
        ApplyAll(next, names[1..], entries)
  }

  /**
   * What Evaluate returns or throws: the dissector's failure as it stands,
   * its value when no transform is listed, and otherwise the value after
   * the listed transforms.
   */
  function QueryResult(q: XmlEventQuery, doc: XmlDissector.XPathEval, entries: map<string, FieldTransform>): (r: Result<string>)
    ensures XmlDissector.Eval(doc, q.expression).Err? ==> r == XmlDissector.Eval(doc, q.expression)
    ensures q.transforms == "" ==> r == XmlDissector.Eval(doc, q.expression)
    ensures XmlDissector.Eval(doc, q.expression).Ok? && q.transforms != "" ==>
              r == ApplyAll(XmlDissector.Eval(doc, q.expression).value, TransformNames(q.transforms), entries)
  {
    var value :- XmlDissector.Eval(doc, q.expression);
    if q.transforms == "" then Ok(value) else ApplyAll(value, TransformNames(q.transforms), entries)
  }

  /** Evaluate: the dissector's value, then each listed transform looked up and applied in turn. */
  method Evaluate(q: XmlEventQuery, doc: XmlDissector.XPathEval, registry: TransformRegistry) returns (r: Result<string>)
    requires registry.Valid()
    ensures r == QueryResult(q, doc, registry.entries)
  {
    var raw := XmlDissector.Eval(doc, q.expression);
    if raw.Err? {
      return raw;
    }
    if q.transforms == "" {
      return raw;
    }
    r := ApplyTransforms(raw.value, TransformNames(q.transforms), registry);
  }

  /** The foreach loop of Evaluate: Find each name, KeyNotFoundException when it is unknown, else transform. */
  method ApplyTransforms(value: string, names: seq<string>, registry: TransformRegistry) returns (r: Result<string>)
    requires registry.Valid()
    ensures r == ApplyAll(value, names, registry.entries)
  {
    var current := value;
    ghost var entries := registry.entries;
    var i := 0;
    while i < |names|
      invariant 0 <= i <= |names|
      invariant ApplyAll(current, names[i..], entries) == ApplyAll(value, names, entries)
    {
      var transform := registry.Find(names[i]);
      ApplyAllStep(current, names[i..], entries);
      if transform.None? {
        return Err(KeyNotFound);
      }
      var next := transform.value.Apply(current);
      if next.Err? {
        return next;
      }
      assert names[i..][1..] == names[i + 1..];
      current := next.value;
      i := i + 1;
    }
    return Ok(current);
  }

  /** One step of ApplyAll: look up the first name, apply it, go on with the rest. */
  lemma ApplyAllStep(value: string, names: seq<string>, entries: map<string, FieldTransform>)
    requires names != []
    ensures Lookup(entries, names[0]).None? ==> ApplyAll(value, names, entries) == Err(KeyNotFound)
    ensures Lookup(entries, names[0]).Some? && Lookup(entries, names[0]).value.Apply(value).Err? ==>
              ApplyAll(value, names, entries) == Err(Lookup(entries, names[0]).value.Apply(value).error)
    ensures Lookup(entries, names[0]).Some? && Lookup(entries, names[0]).value.Apply(value).Ok? ==>
              ApplyAll(value, names, entries) == ApplyAll(Lookup(entries, names[0]).value.Apply(value).value, names[1..], entries)
  {
  }

  // ---------------------------------------------------------------- the transform list

  lemma NoCommaInSlices(s: string, i: nat, j: nat)
    requires i <= j <= |s| && ',' !in s
    ensures ',' !in s[i..j]
  {
  }

  /** Trimming removes only characters at the ends, so it adds no comma. */
  lemma TrimNoComma(s: string)
    requires ',' !in s
    ensures ',' !in Trim(s, IsCharWhiteSpace)
  {
    var t := TrimStart(s, IsCharWhiteSpace);
    NoCommaInSlices(s, |s| - |t|, |s|);
    NoCommaInSlices(t, 0, |TrimEnd(t, IsCharWhiteSpace)|);
  }

  /** A comma-free part trims to a clean name unless it trims to nothing. */
  lemma TrimClean(p: string)
    requires ',' !in p && Trim(p, IsCharWhiteSpace) != ""
    ensures CleanName(Trim(p, IsCharWhiteSpace))
  {
    TrimNoComma(p);
    TrimNoSpaceAtEnds(p, IsCharWhiteSpace);
  }

  lemma {:induction false} NonEmptyTrimmedClean(parts: seq<string>)
    requires forall i :: 0 <= i < |parts| ==> ',' !in parts[i]
    ensures forall i :: 0 <= i < |NonEmptyTrimmed(parts)| ==> CleanName(NonEmptyTrimmed(parts)[i])
  {
    if parts != [] {
      var tail := NonEmptyTrimmed(parts[1..]);
      assert forall i :: 0 <= i < |parts[1..]| ==> ',' !in parts[1..][i] by {
        forall i | 0 <= i < |parts[1..]| ensures ',' !in parts[1..][i] {
          assert parts[1..][i] == parts[i + 1];
        }
      }
      NonEmptyTrimmedClean(parts[1..]);
      if Trim(parts[0], IsCharWhiteSpace) != "" {
        TrimClean(parts[0]);
        var all := [Trim(parts[0], IsCharWhiteSpace)] + tail;
        assert NonEmptyTrimmed(parts) == all;
        forall i | 0 <= i < |all| ensures CleanName(all[i]) {
          if i > 0 {
            assert all[i] == tail[i - 1];
          }
        }
      } else {
        assert NonEmptyTrimmed(parts) == [] + tail;
      }
    }
  }

  /** Every name in the list is clean. */
  lemma TransformNamesClean(transforms: string)
    ensures forall i :: 0 <= i < |TransformNames(transforms)| ==> CleanName(TransformNames(transforms)[i])
  {
    SplitParts(transforms, ',');
    NonEmptyTrimmedClean(Split(transforms, ','));
  }

  /** Clean names joined with commas read back as the same list. */
  lemma {:induction false} TransformNamesOfJoin(names: seq<string>)
    requires |names| >= 1
    requires forall i :: 0 <= i < |names| ==> CleanName(names[i])
    ensures TransformNames(Join(names, ',')) == names
  {
    SplitJoin(names, ',');
    NonEmptyTrimmedOfClean(names);
  }

  /**
   * A clean name with char.IsWhiteSpace padding on either side (U+00A0 and
   * U+3000 as much as ' ') is read as that one name.
   */
  lemma PaddedNameRead(pre: string, n: string, post: string)
    requires CleanName(n)
    requires forall i :: 0 <= i < |pre| ==> IsCharWhiteSpace(pre[i])
    requires forall i :: 0 <= i < |post| ==> IsCharWhiteSpace(post[i])
    ensures TransformNames(pre + n + post) == [n]
  {
    var s := pre + n + post;
    assert ',' !in s by {
      forall i | 0 <= i < |s| ensures s[i] != ',' {
        if i < |pre| { assert s[i] == pre[i]; }
        else if i < |pre| + |n| { assert s[i] == n[i - |pre|]; }
        else { assert s[i] == post[i - |pre| - |n|]; }
      }
    }
    assert Split(s, ',') == [s];
    TrimPadded(pre, n, post, IsCharWhiteSpace);
    assert NonEmptyTrimmed([s]) == [n] + NonEmptyTrimmed([]);
  }

  /** A trailing no-break space is not part of the name. */
  lemma NoBreakSpaceTrimmed()
    ensures TransformNames("notempty\U{A0}") == ["notempty"]
  {
    assert CleanName("notempty");
    assert "notempty\U{A0}" == "" + "notempty" + "\U{A0}";
    PaddedNameRead("", "notempty", "\U{A0}");
  }

  lemma {:induction false} NonEmptyTrimmedOfClean(names: seq<string>)
    requires forall i :: 0 <= i < |names| ==> CleanName(names[i])
    ensures NonEmptyTrimmed(names) == names
  {
    if names != [] {
      var n := names[0];
      assert CleanName(n);
      TrimStartKeeps(n, IsCharWhiteSpace);
      TrimEndKeeps(n, IsCharWhiteSpace);
      assert Trim(n, IsCharWhiteSpace) == n;
      var rest := names[1..];
      assert forall i :: 0 <= i < |rest| ==> CleanName(rest[i]) by {
        forall i | 0 <= i < |rest| ensures CleanName(rest[i]) {
          assert rest[i] == names[i + 1];
        }
      }
      NonEmptyTrimmedOfClean(rest);
      assert NonEmptyTrimmed(names) == [n] + rest;
    }
  }

  // ---------------------------------------------------------------- applying the list

  /** Applying a + b is applying a, then b to its result. */
  lemma {:induction false} ApplyAllConcat(value: string, a: seq<string>, b: seq<string>, entries: map<string, FieldTransform>)
    ensures ApplyAll(value, a + b, entries)
            == (match ApplyAll(value, a, entries) case Ok(v) => ApplyAll(v, b, entries) case Err(e) => Err(e))
    decreases |a|
  {
    if a != [] {
      assert (a + b)[0] == a[0] && (a + b)[1..] == a[1..] + b;
      match Lookup(entries, a[0])
      case None =>
      case Some(t) =>
        if t.Apply(value).Ok? {
          ApplyAllConcat(t.Apply(value).value, a[1..], b, entries);
        }
    } else {
      assert a + b == b;
    }
  }

  /** A list succeeds only when every name in it is registered. */
  lemma {:induction false} ApplyAllNamesKnown(value: string, names: seq<string>, entries: map<string, FieldTransform>)
    requires ApplyAll(value, names, entries).Ok?
    ensures forall i :: 0 <= i < |names| ==> Lookup(entries, names[i]).Some?
    decreases |names|
  {
    if names != [] {
      var t := Lookup(entries, names[0]).value;
      ApplyAllNamesKnown(t.Apply(value).value, names[1..], entries);
      forall i | 1 <= i < |names| ensures Lookup(entries, names[i]).Some? {
        assert names[1..][i - 1] == names[i];
      }
    }
  }

  /** Once a NotEmpty has passed, the value stays non-empty: a list holding it yields a non-empty value. */
  lemma {:induction false} ApplyAllNotEmpty(value: string, names: seq<string>, entries: map<string, FieldTransform>, k: nat)
    requires k < |names| && Lookup(entries, names[k]) == Some(NotEmpty)
    requires ApplyAll(value, names, entries).Ok?
    ensures ApplyAll(value, names, entries).value != ""
    decreases |names|
  {
    var t := Lookup(entries, names[0]).value;
    var next := t.Apply(value).value;
    if k == 0 {
      ApplyAllKeepsNonEmpty(next, names[1..], entries);
    } else {
      assert names[1..][k - 1] == names[k];
      ApplyAllNotEmpty(next, names[1..], entries, k - 1);
    }
  }

  lemma {:induction false} ApplyAllKeepsNonEmpty(value: string, names: seq<string>, entries: map<string, FieldTransform>)
    requires value != "" && ApplyAll(value, names, entries).Ok?
    ensures ApplyAll(value, names, entries).value != ""
    decreases |names|
  {
    if names != [] {
      var t := Lookup(entries, names[0]).value;
      KeepsNonEmpty(t, value);
      ApplyAllKeepsNonEmpty(t.Apply(value).value, names[1..], entries);
    }
  }

  /** Two clean names joined by a comma read back as the two names. */
  lemma TwoNames(a: string, b: string)
    requires CleanName(a) && CleanName(b)
    ensures TransformNames(a + "," + b) == [a, b]
  {
    TransformNamesOfJoin([a, b]);
    assert Join([a, b], ',') == a + "," + b;
  }

  /** "unsigned,notempty" lists the two default transforms in that order. */
  lemma ExampleNames()
    ensures TransformNames("unsigned,notempty") == ["unsigned", "notempty"]
  {
    assert CleanName("unsigned") && CleanName("notempty");
    TwoNames("unsigned", "notempty");
    assert "unsigned" + "," + "notempty" == "unsigned,notempty";
  }

  /** Through the default registry, "unsigned" then "notempty" turn "0xa3fc" into "41980". */
  lemma ExampleTransforms()
    ensures ApplyAll("0xa3fc", ["unsigned", "notempty"], DefaultEntries()) == Ok("41980")
  {
    var names, entries := ["unsigned", "notempty"], DefaultEntries();
    DefaultFinds("unsigned");
    DefaultFinds("notempty");
    UnsignedExamples();
    ApplyAllStep("0xa3fc", names, entries);
    assert ApplyAll("0xa3fc", names, entries) == ApplyAll("41980", names[1..], entries);
    ApplyAllStep("41980", names[1..], entries);
    assert names[1..][1..] == [];
    assert ApplyAll("41980", names[1..], entries) == ApplyAll("41980", [], entries);
  }

  /**
   * A query reading a named Data element with "unsigned,notempty" turns the
   * hex text "0xa3fc" into "41980"; without transforms the text is returned
   * as it is.
   */
  lemma QueryExample(doc: XmlDissector.XPathEval, name: string)
    requires XmlDissector.IndexDigits(name).None?
    requires doc("string(" + XmlDissector.NamedData(name) + ")") == "0xa3fc"
    ensures QueryResult(NewQuery("pid", ":data:" + name, Some("unsigned,notempty")), doc, DefaultEntries()) == Ok("41980")
    ensures QueryResult(NewQuery("pid", ":data:" + name, None), doc, DefaultEntries()) == Ok("0xa3fc")
  {
    var path := XmlDissector.NamedData(name);
    XmlDissector.DataPrefix(doc, name);
    XmlDissector.DataXpathForms(name);
    XmlDissector.PlainPathUnchanged(doc, path);
    assert XmlDissector.Eval(doc, ":data:" + name) == Ok("0xa3fc");
    ExampleNames();
    ExampleTransforms();
  }
}
