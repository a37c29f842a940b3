/*
 * The expression rewriting of Lcl.EventLog/Utilities/Xml/XmlDissector.cs:
 * an expression ":prefix:rest" is turned into an XPath path into the event
 * XML (":sys:", ":data:", ":udata:" and ":common:"), then evaluated as
 * string(...). Loading the document and XPath evaluation are library work:
 * the document is an XPathEval, a function from an XPath expression to the
 * string it evaluates to.
 */
module XmlDissector {
  import opened Common

  /** navigator.Evaluate(expression) on the loaded document, cast to string. */
  type XPathEval = string -> string

  /**
   * xpath.Split(':', 3) on an expression that starts with ':': the key
   * between the first two colons and everything after the second one, or
   * None when the expression does not start with ':' or has one colon only.
   */
  function SplitPrefix(xpath: string): (r: Option<(string, string)>)
    ensures r.Some? ==> xpath == ":" + r.value.0 + ":" + r.value.1 && ':' !in r.value.0
  {
    if |xpath| >= 1 && xpath[0] == ':' && ':' in xpath[1..] then
      var rest := xpath[1..];
      var i := IndexOf(rest, ':');
      assert rest == rest[..i] + [':'] + rest[i + 1..];
      assert xpath == [':'] + rest;
      Some((rest[..i], rest[i + 1..]))
    else None
  }

  /** The seven keys of ":common:" and their paths. */
  const CommonPaths: map<string, string> := map[
    "Rid" := "/Event/System/EventRecordID",
    "Provider" := "/Event/System/Provider/@Name",
    "ProviderGuid" := "/Event/System/Provider/@Guid",
    "EventId" := "/Event/System/EventID",
    "Task" := "/Event/System/Task",
    "Time" := "/Event/System/TimeCreated/@SystemTime",
    "UserSid" := "/Event/System/Security/@UserID"
  ]

  /** Every common path points into /Event/System. */
  lemma CommonPathsUnderSystem(key: string)
    requires key in CommonPaths
    ensures StartsWith(CommonPaths[key], "/Event/System/")
  {
  }

  /** XpathCommon: the table entry for key; any other key is an InvalidOperationException. */
  function XpathCommon(key: string): (r: Result<string>)
    ensures r.Ok? <==> key in CommonPaths
    ensures r.Ok? ==> r.value == CommonPaths[key]
    ensures r.Err? ==> r.error == InvalidOperation
  {
    if key in CommonPaths then Ok(CommonPaths[key]) else Err(InvalidOperation)
  }

  /**
   * The index digits of a key of the shape "$X" + two or more digits: the
   * regex ^\$X(\d\d+)$, whose '$' also matches before a final line feed.
   */
  function IndexDigits(key: string): (d: Option<string>)
    ensures d.Some? ==> |d.value| >= 2 && AllDigits(d.value)
    ensures d.Some? ==> key == "$X" + d.value || key == "$X" + d.value + "\n"
  {
    if |key| >= 2 && key[..2] == "$X" then
      var body := key[2..];
      assert key == "$X" + body;
      if |body| >= 2 && AllDigits(body) then Some(body)
      else if |body| >= 3 && body[|body| - 1] == '\n' && AllDigits(body[..|body| - 1]) then
        assert body == body[..|body| - 1] + "\n";
        Some(body[..|body| - 1])
      else None
    else None
  }

  /**
   * DataXpath: an index key selects the Data element at that 1-based
   * position (Int32.Parse of its digits, which overflows past
   * Int32.MaxValue); any other key selects Data by its Name attribute.
   */
  function DataXpath(key: string): (r: Result<string>)
    ensures r.Err? ==> r == Err(OverflowException) && IndexDigits(key).Some?
    ensures IndexDigits(key).None? ==> r == Ok(NamedData(key))
    ensures r.Ok? ==> StartsWith(r.value, "/Event/EventData/Data[")
  {
    match IndexDigits(key)
    case Some(d) =>
      if DecimalValue(d) > Int32Max then Err(OverflowException)
      else Ok("/Event/EventData/Data[" + DecimalString(DecimalValue(d)) + "]")
    case None => Ok(NamedData(key))
  }

  function NamedData(name: string): string
  {
    "/Event/EventData/Data[@Name='" + name + "']"
  }

  /**
   * The prefix rewriting at the start of Eval: an expression without a
   * prefix is kept; a known prefix becomes an absolute path under /Event/;
   * an unknown prefix or ":common:" key is an InvalidOperationException.
   */
  function Rewrite(xpath: string): (r: Result<string>)
    ensures SplitPrefix(xpath).None? ==> r == Ok(xpath)
    ensures r.Err? ==> SplitPrefix(xpath).Some? && (r.error == InvalidOperation || r.error == OverflowException)
    ensures r.Ok? && SplitPrefix(xpath).Some? ==> StartsWith(r.value, "/Event/")
  {
    match SplitPrefix(xpath)
    case None => Ok(xpath)
    case Some((key, suffix)) =>
      if key == "common" then
        if suffix in CommonPaths then CommonPathsUnderSystem(suffix); XpathCommon(suffix) else XpathCommon(suffix)
      else if key == "sys" then Ok("/Event/System/" + suffix)
      else if key == "data" then DataXpath(suffix)
      else if key == "udata" then Ok("/Event/UserData/*/" + suffix)
      else Err(InvalidOperation)
  }

  /**
   * Eval: the rewritten expression evaluated as string(...). It fails
   * exactly when the rewriting does, and a plain expression is evaluated as
   * it stands.
   */
  function Eval(doc: XPathEval, xpath: string): (r: Result<string>)
    ensures r.Ok? <==> Rewrite(xpath).Ok?
    ensures SplitPrefix(xpath).None? ==> r == Ok(doc("string(" + xpath + ")"))
  {
    var x :- Rewrite(xpath);
    Ok(doc("string(" + x + ")"))
  }

  /** EvalNotEmpty: Eval, with an empty result turned into an InvalidOperationException. */
  function EvalNotEmpty(doc: XPathEval, xpath: string): (r: Result<string>)
    ensures r.Ok? <==> Eval(doc, xpath).Ok? && Eval(doc, xpath).value != ""
    ensures r.Ok? ==> r == Eval(doc, xpath)
    ensures Eval(doc, xpath) == Ok("") ==> r == Err(InvalidOperation)
  {
    var v :- Eval(doc, xpath);
    if v == "" then Err(InvalidOperation) else Ok(v)
  }

  /** String.IsNullOrEmpty on an optional attribute name. */
  predicate NoAttribute(attribute: Option<string>)
  {
    attribute.None? || attribute.value == ""
  }

  /** EvalSystem: the element, or its attribute, under /Event/System; an absolute path is never rewritten, so it never fails. */
  function EvalSystem(doc: XPathEval, element: string, attribute: Option<string>): (r: Result<string>)
    ensures NoAttribute(attribute) ==> r == Ok(doc("string(" + ("/Event/System/" + element) + ")"))
    ensures !NoAttribute(attribute) ==> r == Ok(doc("string(" + ("/Event/System/" + element + "/@" + attribute.value) + ")"))
  {
    if NoAttribute(attribute) then Eval(doc, "/Event/System/" + element)
    else Eval(doc, "/Event/System/" + element + "/@" + attribute.value)
  }

  /** EvalData: the Data element the key selects; only an index past Int32.MaxValue fails. */
  function EvalData(doc: XPathEval, key: string): (r: Result<string>)
    ensures r.Ok? <==> DataXpath(key).Ok?
    ensures r.Ok? ==> r.value == doc("string(" + DataXpath(key).value + ")")
    ensures r.Err? ==> r.error == OverflowException
  {
    var x :- DataXpath(key);
    Eval(doc, x)
  }

  /** EvalUserData: the element, or its attribute, under any child of /Event/UserData; it never fails. */
  function EvalUserData(doc: XPathEval, element: string, attribute: Option<string>): (r: Result<string>)
    ensures NoAttribute(attribute) ==> r == Ok(doc("string(" + ("/Event/UserData/*/" + element) + ")"))
    ensures !NoAttribute(attribute) ==> r == Ok(doc("string(" + ("/Event/UserData/*/" + element + "/@" + attribute.value) + ")"))
  {
    if NoAttribute(attribute) then Eval(doc, "/Event/UserData/*/" + element)
    else Eval(doc, "/Event/UserData/*/" + element + "/@" + attribute.value)
  }

  // ---------------------------------------------------------------- what the rewriting promises

  /** The key is the text between the first two colons, whatever the suffix holds. */
  lemma SplitPrefixOf(key: string, suffix: string)
    requires ':' !in key
    ensures SplitPrefix(":" + key + ":" + suffix) == Some((key, suffix))
  {
    var xpath := ":" + key + ":" + suffix;
    var rest := xpath[1..];
    assert rest == key + ":" + suffix;
    assert rest[|key|] == ':' && rest[..|key|] == key;
    assert rest[IndexOf(rest, ':') + 1..] == suffix;
  }

  /** A path that does not start with ':' (as every absolute XPath) is evaluated as it stands. */
  lemma PlainPathUnchanged(doc: XPathEval, xpath: string)
    requires xpath == [] || xpath[0] != ':'
    ensures Eval(doc, xpath) == Ok(doc("string(" + xpath + ")"))
  {
  }

  /** An expression with a single colon at its start is not a prefix form either. */
  lemma OneColonUnchanged(doc: XPathEval, rest: string)
    requires ':' !in rest
    ensures Eval(doc, ":" + rest) == Ok(doc("string(:" + rest + ")"))
  {
    assert (":" + rest)[1..] == rest;
    assert "string(" + (":" + rest) + ")" == "string(:" + rest + ")";
  }

  /** ":sys:" + e is EvalSystem(e), also with an attribute in the suffix. */
  lemma SysPrefix(doc: XPathEval, element: string, attribute: string)
    ensures Eval(doc, ":sys:" + element) == EvalSystem(doc, element, None)
    ensures attribute != "" ==> Eval(doc, ":sys:" + element + "/@" + attribute) == EvalSystem(doc, element, Some(attribute))
  {
    SplitPrefixOf("sys", element);
    assert ":sys:" + element == ":" + "sys" + ":" + element;
    SplitPrefixOf("sys", element + "/@" + attribute);
    assert ":sys:" + element + "/@" + attribute == ":" + "sys" + ":" + (element + "/@" + attribute);
    assert "/Event/System/" + (element + "/@" + attribute) == "/Event/System/" + element + "/@" + attribute;
  }

  /** ":udata:" + e is EvalUserData(e). */
  lemma UserDataPrefix(doc: XPathEval, element: string)
    ensures Eval(doc, ":udata:" + element) == EvalUserData(doc, element, None)
  {
    SplitPrefixOf("udata", element);
    assert ":udata:" + element == ":" + "udata" + ":" + element;
  }

  /** ":data:" + key is EvalData(key). */
  lemma DataPrefix(doc: XPathEval, key: string)
    ensures Eval(doc, ":data:" + key) == EvalData(doc, key)
  {
    SplitPrefixOf("data", key);
    assert ":data:" + key == ":" + "data" + ":" + key;
  }

  /** ":common:" + key evaluates the table's path, and is refused for a key not in the table. */
  lemma CommonPrefix(doc: XPathEval, key: string)
    ensures key in CommonPaths ==> Eval(doc, ":common:" + key) == Ok(doc("string(" + CommonPaths[key] + ")"))
    ensures key !in CommonPaths ==> Eval(doc, ":common:" + key) == Err(InvalidOperation)
  {
    SplitPrefixOf("common", key);
    assert ":common:" + key == ":" + "common" + ":" + key;
  }

  /** Any other key between the first two colons is an InvalidOperationException. */
  lemma UnknownPrefix(doc: XPathEval, key: string, suffix: string)
    requires ':' !in key && key != "common" && key != "sys" && key != "data" && key != "udata"
    ensures Eval(doc, ":" + key + ":" + suffix) == Err(InvalidOperation)
  {
    SplitPrefixOf(key, suffix);
  }

  /** DataXpath selects by position exactly for index keys, and by name for every other key. */
  lemma DataXpathForms(key: string)
    ensures IndexDigits(key).None? ==> DataXpath(key) == Ok(NamedData(key))
    ensures IndexDigits(key).Some? && DecimalValue(IndexDigits(key).value) <= Int32Max ==>
              DataXpath(key) == Ok("/Event/EventData/Data[" + DecimalString(DecimalValue(IndexDigits(key).value)) + "]")
    ensures DataXpath(key).Ok? && DataXpath(key).value == NamedData(key) ==> IndexDigits(key).None?
  {
    if IndexDigits(key).Some? && DataXpath(key).Ok? {
      var p := DataXpath(key).value;
      var n := DecimalString(DecimalValue(IndexDigits(key).value));
      assert p[22] == n[0] && IsDigit(n[0]);
      assert NamedData(key)[22] == '@';
    }
  }

  /** "$X" + two or more digits is an index key; one digit is not ("$X1" is a name). */
  lemma IndexKeyShape(d: string)
    requires AllDigits(d)
    ensures |d| >= 2 ==> IndexDigits("$X" + d) == Some(d)
    ensures |d| < 2 ==> IndexDigits("$X" + d).None?
  {
    var key := "$X" + d;
    assert key[..2] == "$X" && key[2..] == d;
    if |d| == 1 {
      assert !AllDigits(d[..0] + "") || |d| < 3;
    }
  }

  /** The unit-test style examples: "$X07" is the seventh Data element, "$X1" the Data named "$X1". */
  lemma DataXpathExamples()
    ensures DataXpath("$X07") == Ok("/Event/EventData/Data[7]")
    ensures DataXpath("$X1") == Ok("/Event/EventData/Data[@Name='$X1']")
  {
    assert AllDigits("07") && AllDigits("1");
    IndexKeyShape("07");
    assert "$X" + "07" == "$X07";
    assert DecimalValue("07") == 7 by {
      assert "07"[..1] == "0";
      assert "0"[..0] == "";
    }
    assert DecimalString(7) == "7";
    assert IndexDigits("$X07") == Some("07");
    assert "/Event/EventData/Data[" + "7" + "]" == "/Event/EventData/Data[7]";
    IndexKeyShape("1");
    assert "$X" + "1" == "$X1";
    assert IndexDigits("$X1") == None;
    assert NamedData("$X1") == "/Event/EventData/Data[@Name='$X1']";
  }

  // ---------------------------------------------------------------- MapData's synthesised names

  /** The name MapData gives the unnamed Data element at a 1-based index: "$X" + index.ToString("D2"). */
  function SynthName(index: nat): (r: string)
    ensures |r| >= 4 && r[..2] == "$X" && AllDigits(r[2..]) && DecimalValue(r[2..]) == index
  {
    PadDecimalRoundTrip(index, 2);
    var r := "$X" + PadDecimal(index, 2);
    assert r[2..] == PadDecimal(index, 2);
    r
  }

  /** A synthesised name is an index key that DataXpath maps back to the same element. */
  lemma SynthNameSelectsIndex(index: nat)
    requires index <= Int32Max
    ensures DataXpath(SynthName(index)) == Ok("/Event/EventData/Data[" + DecimalString(index) + "]")
  {
    IndexKeyShape(PadDecimal(index, 2));
    PadDecimalRoundTrip(index, 2);
  }

  /** A Data element under /Event/EventData: its Name attribute ("" when absent) and its inner XML. */
  datatype DataElement = DataElement(name: string, inner: string)

  /** The key MapData files the element at a 1-based index under. */
  function DataKey(e: DataElement, index: nat): string
  {
    if e.name == "" then SynthName(index) else e.name
  }

  /** The dictionary MapData builds: each element in document order; a later element under the same key wins. */
  function DataMap(elements: seq<DataElement>): (m: map<string, string>)
    ensures |m| <= |elements|
    ensures elements != [] ==> DataKey(elements[|elements| - 1], |elements|) in m
  {
    if elements == [] then map[]
    else DataMap(elements[..|elements| - 1])[DataKey(elements[|elements| - 1], |elements|) := elements[|elements| - 1].inner]
  }

  /** MapData's loop over the Data elements, with its 1-based index counter. */
  method MapData(elements: seq<DataElement>) returns (m: map<string, string>)
    ensures m == DataMap(elements)
  {
    m := map[];
    var index := 1;
    while index <= |elements|
      invariant 1 <= index <= |elements| + 1
      invariant m == DataMap(elements[..index - 1])
    {
      var e := elements[index - 1];
      var name := e.name;
      if name == "" {
        name := SynthName(index);
      }
      assert elements[..index][..index - 1] == elements[..index - 1];
      m := m[name := e.inner];
      index := index + 1;
    }
    assert elements[..|elements|] == elements;
  }

  /** The keys of MapData's dictionary are exactly the elements' keys. */
  lemma {:induction false} DataMapKeys(elements: seq<DataElement>, k: string)
    ensures k in DataMap(elements) <==> exists i :: 0 <= i < |elements| && DataKey(elements[i], i + 1) == k
  {
    if elements != [] {
      var init := elements[..|elements| - 1];
      DataMapKeys(init, k);
      if k in DataMap(init) {
        var i :| 0 <= i < |init| && DataKey(init[i], i + 1) == k;
        assert elements[i] == init[i];
      }
      if exists i :: 0 <= i < |elements| && DataKey(elements[i], i + 1) == k {
        var i :| 0 <= i < |elements| && DataKey(elements[i], i + 1) == k;
        if i < |init| {
          assert init[i] == elements[i];
        }
      }
    }
  }

  /** The value under a key is the inner XML of the last element filed under it. */
  lemma {:induction false} DataMapLastWins(elements: seq<DataElement>, i: nat)
    requires i < |elements|
    requires forall j :: i < j < |elements| ==> DataKey(elements[j], j + 1) != DataKey(elements[i], i + 1)
    ensures DataKey(elements[i], i + 1) in DataMap(elements)
    ensures DataMap(elements)[DataKey(elements[i], i + 1)] == elements[i].inner
  {
    if i < |elements| - 1 {
      var init := elements[..|elements| - 1];
      assert init[i] == elements[i];
      forall j | i < j < |init| ensures DataKey(init[j], j + 1) != DataKey(init[i], i + 1) {
        assert init[j] == elements[j];
      }
      DataMapLastWins(init, i);
    }
  }
}

/*
 * The older Lcl.EventLog/Utilities/XmlDissector.cs: the same evaluation,
 * but ":data:" always selects by name and ":common:" is unknown.
 */
module LegacyXmlDissector {
  import opened Common
  import XmlDissector

  type XPathEval = XmlDissector.XPathEval

  /** The older rewriting: ":sys:", ":data:" (by name only) and ":udata:"; any other prefix is refused. */
  function Rewrite(xpath: string): (r: Result<string>)
    ensures XmlDissector.SplitPrefix(xpath).None? ==> r == Ok(xpath)
    ensures r.Err? ==> r.error == InvalidOperation && XmlDissector.SplitPrefix(xpath).Some?
    ensures r.Ok? && XmlDissector.SplitPrefix(xpath).Some? ==> StartsWith(r.value, "/Event/")
  {
    match XmlDissector.SplitPrefix(xpath)
    case None => Ok(xpath)
    case Some((key, suffix)) =>
      if key == "sys" then Ok("/Event/System/" + suffix)
      else if key == "data" then Ok(XmlDissector.NamedData(suffix))
      else if key == "udata" then Ok("/Event/UserData/*/" + suffix)
      else Err(InvalidOperation)
  }

  /** Eval: fails exactly when the rewriting does, always with InvalidOperationException. */
  function Eval(doc: XPathEval, xpath: string): (r: Result<string>)
    ensures r.Ok? <==> Rewrite(xpath).Ok?
    ensures r.Err? ==> r.error == InvalidOperation
    ensures XmlDissector.SplitPrefix(xpath).None? ==> r == Ok(doc("string(" + xpath + ")"))
  {
    var x :- Rewrite(xpath);
    Ok(doc("string(" + x + ")"))
  }

  function EvalNotEmpty(doc: XPathEval, xpath: string): (r: Result<string>)
    ensures r.Ok? <==> Eval(doc, xpath).Ok? && Eval(doc, xpath).value != ""
    ensures r.Ok? ==> r == Eval(doc, xpath)
    ensures Eval(doc, xpath) == Ok("") ==> r == Err(InvalidOperation)
  {
    var v :- Eval(doc, xpath);
    if v == "" then Err(InvalidOperation) else Ok(v)
  }

  /** EvalSystem: the element, or its attribute, under /Event/System; it never fails. */
  function EvalSystem(doc: XPathEval, element: string, attribute: Option<string>): (r: Result<string>)
    ensures XmlDissector.NoAttribute(attribute) ==> r == Ok(doc("string(" + ("/Event/System/" + element) + ")"))
    ensures !XmlDissector.NoAttribute(attribute) ==> r == Ok(doc("string(" + ("/Event/System/" + element + "/@" + attribute.value) + ")"))
  {
    if XmlDissector.NoAttribute(attribute) then Eval(doc, "/Event/System/" + element)
    else Eval(doc, "/Event/System/" + element + "/@" + attribute.value)
  }

  /** EvalData: the Data element with the given Name attribute, for every name; it never fails. */
  function EvalData(doc: XPathEval, name: string): (r: Result<string>)
    ensures r == Ok(doc("string(" + XmlDissector.NamedData(name) + ")"))
  {
    Eval(doc, XmlDissector.NamedData(name))
  }

  /** EvalUserData: the element, or its attribute, under any child of /Event/UserData; it never fails. */
  function EvalUserData(doc: XPathEval, element: string, attribute: Option<string>): (r: Result<string>)
    ensures XmlDissector.NoAttribute(attribute) ==> r == Ok(doc("string(" + ("/Event/UserData/*/" + element) + ")"))
    ensures !XmlDissector.NoAttribute(attribute) ==> r == Ok(doc("string(" + ("/Event/UserData/*/" + element + "/@" + attribute.value) + ")"))
  {
    if XmlDissector.NoAttribute(attribute) then Eval(doc, "/Event/UserData/*/" + element)
    else Eval(doc, "/Event/UserData/*/" + element + "/@" + attribute.value)
  }

  /** ":data:" + name selects by name for every name, "$X07" included, and equals EvalData(name). */
  lemma DataAlwaysNamed(doc: XPathEval, name: string)
    ensures Eval(doc, ":data:" + name) == Ok(doc("string(" + XmlDissector.NamedData(name) + ")"))
    ensures Eval(doc, ":data:" + name) == EvalData(doc, name)
  {
    XmlDissector.SplitPrefixOf("data", name);
    assert ":data:" + name == ":" + "data" + ":" + name;
  }

  /** ":sys:" + e is EvalSystem(e). */
  lemma SysPrefix(doc: XPathEval, element: string)
    ensures Eval(doc, ":sys:" + element) == EvalSystem(doc, element, None)
  {
    XmlDissector.SplitPrefixOf("sys", element);
    assert ":sys:" + element == ":" + "sys" + ":" + element;
  }

  /** ":udata:" + e is EvalUserData(e). */
  lemma UserDataPrefix(doc: XPathEval, element: string)
    ensures Eval(doc, ":udata:" + element) == EvalUserData(doc, element, None)
  {
    XmlDissector.SplitPrefixOf("udata", element);
    assert ":udata:" + element == ":" + "udata" + ":" + element;
  }

  /** Every prefix but sys, data and udata is refused, ":common:" included. */
  lemma OtherPrefixesRefused(doc: XPathEval, key: string, suffix: string)
    requires ':' !in key && key != "sys" && key != "data" && key != "udata"
    ensures Eval(doc, ":" + key + ":" + suffix) == Err(InvalidOperation)
    ensures Eval(doc, ":common:" + suffix) == Err(InvalidOperation)
  {
    XmlDissector.SplitPrefixOf(key, suffix);
    XmlDissector.SplitPrefixOf("common", suffix);
    assert ":common:" + suffix == ":" + "common" + ":" + suffix;
  }

  /**
   * What the newer dissector changed: wherever the older one succeeds, the
   * newer one rewrites alike, except ":data:" with an index key.
   */
  lemma NewerExtendsOlder(xpath: string)
    requires Rewrite(xpath).Ok?
    requires forall key, suffix :: XmlDissector.SplitPrefix(xpath) == Some((key, suffix)) && key == "data"
               ==> XmlDissector.IndexDigits(suffix).None?
    ensures XmlDissector.Rewrite(xpath) == Rewrite(xpath)
  {
  }
}
