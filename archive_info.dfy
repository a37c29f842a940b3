/*
 * Archive descriptions and their file names
 * (Lcl.EventLog/Jobs/Archival/ArchiveInfo.cs).
 *
 * An archive file is named machine.job.archive.yyyy-MM.range.evarc, with
 * ".gz" appended when compressed; the range is "-" until the archive is
 * sealed, and NNNNNN-NNNNNN (at least six digits each) after.
 *
 * Two slips in the source are kept in the members named after it: the job
 * name check searches for the pattern instead of matching the whole name
 * (CheckedFields), and the parser compares the last dot-separated part with
 * ".evarc", which no part can equal (ParseArchiveFileNameAsWritten, used by
 * FromFileName and FindArchives). The ...Intended members match the whole
 * job name and compare with "evarc"; the name round trips are proved for them.
 */
module ArchiveInfos {
  import opened Common
  import opened JobConfig

  /** The values an ArchiveInfo holds. A record-id bound is None while it is unknown. */
  datatype ArchiveFields = ArchiveFields(
    machineName: string, jobName: string, year: int, month: int,
    ridMin: Option<int>, ridMax: Option<int>, compressed: bool)

  /** What the constructor guarantees of an archive description. */
  predicate ValidFields(f: ArchiveFields)
  {
    IsValidJobNameAsWritten(f.jobName) && 2000 <= f.year <= 2099 && 1 <= f.month <= 12
    && (f.ridMin.Some? ==> f.ridMin.value >= 1) && (f.ridMax.Some? ==> f.ridMax.value >= 1)
    && (f.ridMin.Some? && f.ridMax.Some? ==> f.ridMin.value <= f.ridMax.value)
  }

  /** What the constructor with the intended job name check guarantees. */
  predicate IntendedFields(f: ArchiveFields)
  {
    ValidFields(f) && IsValidJobName(f.jobName)
  }

  /** A record-id bound below 1 means "unknown". */
  function NormalizeRid(rid: Option<int>): (r: Option<int>)
    ensures r.Some? <==> rid.Some? && rid.value >= 1
    ensures r.Some? ==> r.value == rid.value
  {
    if rid.Some? && rid.value < 1 then None else rid
  }

  /**
   * The constructor's checks in order: the job name (ArgumentException), the
   * year and the month (ArgumentOutOfRangeException), then the normalised
   * record-id bounds (ArgumentException). An empty machine name stands for
   * the local one.
   */
  function CheckedFields(machineName: string, localMachine: string, jobName: string, year: int, month: int,
                         ridMin: Option<int>, ridMax: Option<int>, compressed: bool): (r: Result<ArchiveFields>)
    ensures r.Ok? <==> IsValidJobNameAsWritten(jobName) && 2000 <= year <= 2099 && 1 <= month <= 12
                       && !(NormalizeRid(ridMin).Some? && NormalizeRid(ridMax).Some?
                            && NormalizeRid(ridMin).value > NormalizeRid(ridMax).value)
    ensures r.Err? && !IsValidJobNameAsWritten(jobName) ==> r.error == ArgumentException
    ensures r.Err? && IsValidJobNameAsWritten(jobName) && !(2000 <= year <= 2099 && 1 <= month <= 12)
            ==> r.error == ArgumentOutOfRange
    ensures r.Err? && IsValidJobNameAsWritten(jobName) && 2000 <= year <= 2099 && 1 <= month <= 12
            ==> r.error == ArgumentException
    ensures r.Ok? ==> ValidFields(r.value)
    ensures r.Ok? ==> r.value == ArchiveFields(if machineName == "" then localMachine else machineName,
                                               jobName, year, month, NormalizeRid(ridMin), NormalizeRid(ridMax), compressed)
  {
    if !IsValidJobNameAsWritten(jobName) then Err(ArgumentException)
    else if year < 2000 || year > 2099 then Err(ArgumentOutOfRange)
    else if month < 1 || month > 12 then Err(ArgumentOutOfRange)
    else
      var lo, hi := NormalizeRid(ridMin), NormalizeRid(ridMax);
      if lo.Some? && hi.Some? && lo.value > hi.value then Err(ArgumentException)
      else Ok(ArchiveFields(if machineName == "" then localMachine else machineName,
                            jobName, year, month, lo, hi, compressed))
  }

  /** The constructor's checks with the job name matched in full: the same outcome once the name passes. */
  function CheckedFieldsIntended(machineName: string, localMachine: string, jobName: string, year: int, month: int,
                                 ridMin: Option<int>, ridMax: Option<int>, compressed: bool): (r: Result<ArchiveFields>)
    ensures r.Ok? <==> IsValidJobName(jobName) && 2000 <= year <= 2099 && 1 <= month <= 12
                       && !(NormalizeRid(ridMin).Some? && NormalizeRid(ridMax).Some?
                            && NormalizeRid(ridMin).value > NormalizeRid(ridMax).value)
    ensures !IsValidJobName(jobName) ==> r == Err(ArgumentException)
    ensures IsValidJobName(jobName) ==> r == CheckedFields(machineName, localMachine, jobName, year, month, ridMin, ridMax, compressed)
    ensures r.Ok? ==> IntendedFields(r.value)
  {
    if !IsValidJobName(jobName) then Err(ArgumentException)
    else
      ValidJobNamePassesSearch(jobName);
      CheckedFields(machineName, localMachine, jobName, year, month, ridMin, ridMax, compressed)
  }

  /** MonthTag: the year in four digits, a dash, the month in two. */
  function MonthTagOf(year: int, month: int): string
    requires 2000 <= year <= 2099 && 1 <= month <= 12
  {
    PadDecimal(year, 4) + "-" + PadDecimal(month, 2)
  }

  /** ^\d{4}-\d{2}$: four digits, a dash, two digits, and optionally the newline '$' lets through. */
  predicate MonthTagMatches(t: string)
  {
    (|t| == 7 || (|t| == 8 && t[7] == '\n'))
    && AllDigits(t[..4]) && t[4] == '-' && AllDigits(t[5..7])
  }

  /** The month tag of a valid year and month has the form the parser demands, and reads back. */
  lemma MonthTagReadsBack(year: int, month: int)
    requires 2000 <= year <= 2099 && 1 <= month <= 12
    ensures MonthTagMatches(MonthTagOf(year, month))
    ensures '.' !in MonthTagOf(year, month) && '/' !in MonthTagOf(year, month) && '\\' !in MonthTagOf(year, month)
    ensures DecimalValue(MonthTagOf(year, month)[..4]) == year
    ensures DecimalValue(MonthTagOf(year, month)[5..7]) == month
  {
    PadDecimalFixed(year, 4);
    PadDecimalFixed(month, 2);
    var t := MonthTagOf(year, month);
    assert t[..4] == PadDecimal(year, 4);
    assert t[5..7] == PadDecimal(month, 2);
    assert forall i :: 0 <= i < |t| ==> t[i] == '-' || IsDigit(t[i]);
  }

  function Suffix(compressed: bool): string { if compressed then ".gz" else "" }

  /** The six dot-separated parts of an archive file name, with the given range part. */
  function NameParts(f: ArchiveFields, range: string): seq<string>
    requires ValidFields(f)
  {
    [f.machineName, f.jobName, "archive", MonthTagOf(f.year, f.month), range, "evarc"]
  }

  /** The file name with the given range part: the parts joined by dots, and the optional ".gz". */
  function ArchiveFileName(f: ArchiveFields, range: string, compressed: bool): string
    requires ValidFields(f)
  {
    Join(NameParts(f, range), '.') + Suffix(compressed)
  }

  /** The range part of a sealed name: both bounds padded to at least six digits. */
  function SealedRange(ridMin: nat, ridMax: nat): string
  {
    PadDecimal(ridMin, 6) + "-" + PadDecimal(ridMax, 6)
  }

  /** GetUnsealedName: the range part is "-"; an explicit compression flag overrides the default. */
  function UnsealedName(f: ArchiveFields, compressed: Option<bool>): string
    requires ValidFields(f)
  {
    ArchiveFileName(f, "-", if compressed.Some? then compressed.value else f.compressed)
  }

  /** GetSealedName: InvalidOperationException unless both bounds are known. */
  function SealedName(f: ArchiveFields, compressed: Option<bool>): (r: Result<string>)
    requires ValidFields(f)
    ensures r.Ok? <==> f.ridMin.Some? && f.ridMax.Some?
    ensures r.Err? ==> r.error == InvalidOperation
  {
    if f.ridMin.None? || f.ridMax.None? then Err(InvalidOperation)
    else Ok(ArchiveFileName(f, SealedRange(f.ridMin.value, f.ridMax.value),
                            if compressed.Some? then compressed.value else f.compressed))
  }

  // ---------------------------------------------------------------- parsing

  predicate IsPathSeparator(c: char) { c == '\\' || c == '/' }

  /** Path.GetFileName: the text after the last directory separator. */
  function BaseName(path: string): (r: string)
    ensures |r| <= |path| && r == path[|path| - |r|..]
    ensures forall i :: 0 <= i < |r| ==> !IsPathSeparator(r[i])
  {
    if path == [] || IsPathSeparator(path[|path| - 1]) then []
    else BaseName(path[..|path| - 1]) + [path[|path| - 1]]
  }

  /** A name without separators is its own file name. */
  lemma {:induction false} BaseNameOfName(name: string)
    requires forall i :: 0 <= i < |name| ==> !IsPathSeparator(name[i])
    ensures BaseName(name) == name
  {
    if name != [] {
      BaseNameOfName(name[..|name| - 1]);
    }
  }

  predicate EndsWithIgnoreCase(s: string, suffix: string)
  {
    |suffix| <= |s| && EqualsIgnoreCase(s[|s| - |suffix|..], suffix)
  }

  /**
   * Int64.Parse with the default number style: surrounding white space, an
   * optional sign, decimal digits; FormatException for anything else and
   * OverflowException outside the long range.
   */
  function ParseInt64(s: string): (r: Result<int>)
    ensures r.Ok? ==> IsInt64(r.value)
    ensures r.Err? ==> r.error == FormatException || r.error == OverflowException
  {
    ParseTrimmed(Trim(s, IsAsciiWhiteSpace))
  }

  /** Int64.Parse once the white space is gone: the sign, then the digits. */
  function ParseTrimmed(t: string): (r: Result<int>)
    ensures r.Ok? ==> IsInt64(r.value)
    ensures r.Err? ==> r.error == FormatException || r.error == OverflowException
  {
    if t == [] then Err(FormatException)
    else if t[0] == '-' || t[0] == '+' then SignedValue(t[0] == '-', t[1..])
    else SignedValue(false, t)
  }

  /** The value of a run of decimal digits with its sign, if it is a long. */
  function SignedValue(negative: bool, digits: string): (r: Result<int>)
    ensures r.Ok? ==> IsInt64(r.value)
    ensures r.Err? ==> r.error == FormatException || r.error == OverflowException
  {
    if digits == [] || !AllDigits(digits) then Err(FormatException)
    else
      var magnitude: int := DecimalValue(digits);
      var v := if negative then -magnitude else magnitude;
      if IsInt64(v) then Ok(v) else Err(OverflowException)
  }

  /** A bare run of digits within the long range parses to its value. */
  lemma ParseDigits(s: string)
    requires |s| >= 1 && AllDigits(s) && DecimalValue(s) <= Int64Max
    ensures ParseInt64(s) == Ok(DecimalValue(s))
  {
    TrimDigits(s);
    TrimmedParse(s);
    NoSignParse(s);
    UnsignedDigits(s);
  }

  /** A text that trimming leaves alone is parsed as it stands. */
  lemma TrimmedParse(s: string)
    requires Trim(s, IsAsciiWhiteSpace) == s
    ensures ParseInt64(s) == ParseTrimmed(s)
  {
  }

  /** A text starting with a digit carries no sign. */
  lemma NoSignParse(s: string)
    requires |s| >= 1 && IsDigit(s[0])
    ensures ParseTrimmed(s) == SignedValue(false, s)
  {
  }

  /** Digits with no sign: their value, when it is a long. */
  lemma UnsignedDigits(s: string)
    requires |s| >= 1 && AllDigits(s) && DecimalValue(s) <= Int64Max
    ensures SignedValue(false, s) == Ok(DecimalValue(s))
  {
  }

  /** Trimming leaves a run of digits alone. */
  lemma TrimDigits(s: string)
    requires |s| >= 1 && IsDigit(s[0]) && IsDigit(s[|s| - 1])
    ensures Trim(s, IsAsciiWhiteSpace) == s
  {
    TrimStartKeeps(s, IsAsciiWhiteSpace);
    TrimEndKeeps(s, IsAsciiWhiteSpace);
  }

  /** A record-id part: empty means unknown, anything else goes through Int64.Parse. */
  function ParseRid(s: string): (r: Result<Option<int>>)
    ensures r.Ok? && s == "" ==> r.value == None
    ensures s != "" ==> (r.Ok? <==> ParseInt64(s).Ok?) && (r.Ok? ==> r.value == Some(ParseInt64(s).value))
  {
    if s == "" then Ok(None)
    else
      var v :- ParseInt64(s);
      Ok(Some(v))
  }

  /**
   * FromFileName, as written or as intended: the directory is dropped, a
   * ".gz" ending (any case) marks the archive compressed and is removed,
   * then the six parts are checked in the source's order (count, "archive",
   * ending, range, month tag) and the constructor's checks finish the job.
   */
  function ParseFileNameWith(fileName: string, localMachine: string, intended: bool): (r: Result<ArchiveFields>)
    ensures r.Ok? ==> ValidFields(r.value)
    ensures r.Ok? && intended ==> IntendedFields(r.value)
    ensures r.Err? ==> IsParseError(r.error)
  {
    var name := BaseName(fileName);
    ParseParts(Split(Stem(name), '.'), localMachine, intended, EndsWithIgnoreCase(name, ".gz"))
  }

  /** The text the last part is compared with: ".evarc" as written, "evarc" as intended. */
  function Ending(intended: bool): string
  {
    if intended then "evarc" else ".evarc"
  }

  /** A file name without its ".gz" ending, in any case. */
  function Stem(name: string): (r: string)
    ensures r == name || (|name| >= 3 && r == name[..|name| - 3])
  {
    if EndsWithIgnoreCase(name, ".gz") then name[..|name| - 3] else name
  }

  /** The exceptions FromFileName can throw. */
  predicate IsParseError(e: Exception)
  {
    e == ArgumentException || e == ArgumentOutOfRange || e == FormatException || e == OverflowException
  }

  /** FromFileName after the split on '.': the part count, "archive" and the ending. */
  function ParseParts(parts: seq<string>, localMachine: string, intended: bool, compressed: bool): (r: Result<ArchiveFields>)
    ensures r.Ok? ==> ValidFields(r.value)
    ensures r.Ok? && intended ==> IntendedFields(r.value)
    ensures r.Ok? ==> |parts| == 6 && r.value.jobName == parts[1] && r.value.compressed == compressed
    ensures |parts| != 6 ==> r == Err(ArgumentException)
    ensures r.Err? ==> IsParseError(r.error)
  {
    if |parts| != 6 then Err(ArgumentException)
    else if !EqualsIgnoreCase(parts[2], "archive") then Err(ArgumentException)
    else if !EqualsIgnoreCase(parts[5], Ending(intended)) then Err(ArgumentException)
    else ParseFields(parts[0], parts[1], parts[3], parts[4], localMachine, intended, compressed)
  }

  /** FromFileName's last steps: the range part, the month tag, then the constructor's checks. */
  function ParseFields(machineName: string, jobName: string, tag: string, range: string,
                       localMachine: string, intended: bool, compressed: bool): (r: Result<ArchiveFields>)
    ensures r.Ok? ==> ValidFields(r.value)
    ensures r.Ok? && intended ==> IntendedFields(r.value)
    ensures r.Ok? ==> r.value.jobName == jobName && r.value.compressed == compressed
                      && r.value.machineName == (if machineName == "" then localMachine else machineName)
    ensures r.Err? ==> IsParseError(r.error)
  {
    var ridParts := Split(range, '-');
    if |ridParts| != 2 then Err(ArgumentException)
    else
      var ridMin :- ParseRid(ridParts[0]);
      var ridMax :- ParseRid(ridParts[1]);
      if !MonthTagMatches(tag) then Err(ArgumentException)
      else if intended then
        CheckedFieldsIntended(machineName, localMachine, jobName, DecimalValue(tag[..4]), DecimalValue(tag[5..7]),
                              ridMin, ridMax, compressed)
      else CheckedFields(machineName, localMachine, jobName, DecimalValue(tag[..4]), DecimalValue(tag[5..7]),
                         ridMin, ridMax, compressed)
  }

  /** FromFileName as the source writes it: the last part is compared with ".evarc". */
  function ParseArchiveFileNameAsWritten(fileName: string, localMachine: string): (r: Result<ArchiveFields>)
    ensures r.Ok? ==> ValidFields(r.value)
    ensures r.Err? ==> IsParseError(r.error)
  {
    ParseFileNameWith(fileName, localMachine, false)
  }

  /** FromFileName as intended: the last part is compared with "evarc" and the job name matched in full. */
  function ParseArchiveFileNameIntended(fileName: string, localMachine: string): (r: Result<ArchiveFields>)
    ensures r.Ok? ==> ValidFields(r.value) && IntendedFields(r.value)
    ensures r.Err? ==> IsParseError(r.error)
  {
    ParseFileNameWith(fileName, localMachine, true)
  }

  /** No part of a split on '.' contains a dot, so the comparison with ".evarc" rejects every name. */
  lemma AsWrittenParseAlwaysFails(fileName: string, localMachine: string)
    ensures ParseArchiveFileNameAsWritten(fileName, localMachine).Err?
  {
    var name := BaseName(fileName);
    SplitParts(Stem(name), '.');
    DottedPartsFail(Split(Stem(name), '.'), localMachine, EndsWithIgnoreCase(name, ".gz"));
  }

  /** Parts free of dots never pass the comparison with ".evarc". */
  lemma DottedPartsFail(parts: seq<string>, localMachine: string, compressed: bool)
    requires forall i :: 0 <= i < |parts| ==> '.' !in parts[i]
    ensures ParseParts(parts, localMachine, false, compressed).Err?
  {
    if |parts| == 6 {
      DottedEndingNeverMatches(parts[5]);
    }
  }

  /** Only a text with a dot in front can equal ".evarc" ignoring case. */
  lemma DottedEndingNeverMatches(part: string)
    requires '.' !in part
    ensures !EqualsIgnoreCase(part, ".evarc")
  {
    if |part| == |".evarc"| {
      assert Fold(part)[0] == FoldChar(part[0]) != '.';
    }
  }

  // ---------------------------------------------------------------- the round trip

  /** A character that is neither a part's character nor the separator is not in the joined text. */
  lemma {:induction false} JoinAvoids(parts: seq<string>, sep: char, c: char)
    requires |parts| >= 1 && c != sep && forall i :: 0 <= i < |parts| ==> c !in parts[i]
    ensures c !in Join(parts, sep)
  {
    if |parts| > 1 {
      JoinAvoids(parts[1..], sep, c);
    }
  }

  /** The joined text ends with the last part. */
  lemma {:induction false} JoinEndsWithLast(parts: seq<string>, sep: char)
    requires |parts| >= 1
    ensures EndsWith(Join(parts, sep), parts[|parts| - 1])
  {
    if |parts| > 1 {
      JoinEndsWithLast(parts[1..], sep);
      var rest := Join(parts[1..], sep);
      var s := Join(parts, sep);
      assert s == parts[0] + [sep] + rest;
      assert s[|s| - |rest|..] == rest;
    }
  }

  /** A machine name the parser can read back: non-empty, without dots or directory separators. */
  predicate PlainMachineName(m: string)
  {
    m != "" && '.' !in m && '\\' !in m && '/' !in m
  }

  /**
   * The file name of a valid archive, parsed back: the fields, with the
   * bounds read from the range part and the compression from the ending.
   */
  lemma ArchiveFileNameParses(f: ArchiveFields, range: string, compressed: bool, localMachine: string,
                              lo: Option<int>, hi: Option<int>)
    requires IntendedFields(f) && PlainMachineName(f.machineName)
    requires '.' !in range && '\\' !in range && '/' !in range
    requires lo.Some? ==> 1 <= lo.value <= Int64Max
    requires hi.Some? ==> 1 <= hi.value <= Int64Max
    requires Split(range, '-') == [if lo.Some? then PadDecimal(lo.value, 6) else "",
                                    if hi.Some? then PadDecimal(hi.value, 6) else ""]
    requires lo.Some? && hi.Some? ==> lo.value <= hi.value
    ensures ParseArchiveFileNameIntended(ArchiveFileName(f, range, compressed), localMachine)
            == Ok(f.(ridMin := lo, ridMax := hi, compressed := compressed))
  {
    ValidJobNameCharacters(f.jobName);
    ArchiveNameStem(f, range, compressed);
    NamePartsSplit(f, range);
    NamePartsParse(f, range, compressed, localMachine, lo, hi);
  }

  /** The name is its own file name, ends in ".gz" exactly when compressed, and its stem is the joined parts. */
  lemma ArchiveNameStem(f: ArchiveFields, range: string, compressed: bool)
    requires ValidFields(f) && PlainMachineName(f.machineName)
    requires '.' !in range && '\\' !in range && '/' !in range && '\\' !in f.jobName && '/' !in f.jobName
    ensures var name := ArchiveFileName(f, range, compressed);
      BaseName(name) == name && EndsWithIgnoreCase(name, ".gz") == compressed
      && Stem(name) == Join(NameParts(f, range), '.')
  {
    var parts := NameParts(f, range);
    var stem := Join(parts, '.');
    assert ArchiveFileName(f, range, compressed) == stem + Suffix(compressed);
    NameHasNoSeparator(f, range, compressed);
    BaseNameOfName(stem + Suffix(compressed));
    assert EndsWith(stem, "evarc") by {
      JoinEndsWithLast(parts, '.');
    }
    SuffixReadsBack(stem, compressed);
  }

  /** A stem ending in "evarc" tells by its ending whether ".gz" follows, and comes back without it. */
  lemma SuffixReadsBack(stem: string, compressed: bool)
    requires EndsWith(stem, "evarc")
    ensures EndsWithIgnoreCase(stem + Suffix(compressed), ".gz") == compressed
    ensures Stem(stem + Suffix(compressed)) == stem
  {
    var name := stem + Suffix(compressed);
    if compressed {
      assert name[|name| - 3..] == ".gz" && name[..|name| - 3] == stem;
    } else {
      assert name[|name| - 3..] == stem[|stem| - 3..] == "arc";
      assert Fold("arc")[0] != Fold(".gz")[0];
    }
  }

  lemma NameHasNoSeparator(f: ArchiveFields, range: string, compressed: bool)
    requires ValidFields(f) && PlainMachineName(f.machineName)
    requires '\\' !in range && '/' !in range && '\\' !in f.jobName && '/' !in f.jobName
    ensures var name := ArchiveFileName(f, range, compressed);
      forall i :: 0 <= i < |name| ==> !IsPathSeparator(name[i])
  {
    var parts := NameParts(f, range);
    NamePartsAvoid(f, range, '/');
    NamePartsAvoid(f, range, '\\');
    JoinAvoids(parts, '.', '/');
    JoinAvoids(parts, '.', '\\');
    assert ArchiveFileName(f, range, compressed) == Join(parts, '.') + Suffix(compressed);
  }

  /** No part of the name holds a dot or a path separator that neither the job name nor the range part holds. */
  lemma NamePartsAvoid(f: ArchiveFields, range: string, c: char)
    requires ValidFields(f) && PlainMachineName(f.machineName)
    requires c == '.' || c == '/' || c == '\\'
    requires c !in range && c !in f.jobName
    ensures forall i :: 0 <= i < |NameParts(f, range)| ==> c !in NameParts(f, range)[i]
  {
    MonthTagReadsBack(f.year, f.month);
  }

  /** No part holds a dot, so splitting the joined parts gives them back. */
  lemma NamePartsSplit(f: ArchiveFields, range: string)
    requires IntendedFields(f) && PlainMachineName(f.machineName) && '.' !in range
    ensures Split(Join(NameParts(f, range), '.'), '.') == NameParts(f, range)
  {
    ValidJobNameCharacters(f.jobName);
    NamePartsAvoid(f, range, '.');
    SplitJoin(NameParts(f, range), '.');
  }

  /** The six parts of a valid archive's name read back as the archive. */
  lemma NamePartsParse(f: ArchiveFields, range: string, compressed: bool, localMachine: string,
                       lo: Option<int>, hi: Option<int>)
    requires IntendedFields(f) && PlainMachineName(f.machineName)
    requires lo.Some? ==> 1 <= lo.value <= Int64Max
    requires hi.Some? ==> 1 <= hi.value <= Int64Max
    requires Split(range, '-') == [if lo.Some? then PadDecimal(lo.value, 6) else "",
                                    if hi.Some? then PadDecimal(hi.value, 6) else ""]
    requires lo.Some? && hi.Some? ==> lo.value <= hi.value
    ensures ParseParts(NameParts(f, range), localMachine, true, compressed)
            == Ok(f.(ridMin := lo, ridMax := hi, compressed := compressed))
  {
    var parts := NameParts(f, range);
    assert EqualsIgnoreCase(parts[2], "archive") && EqualsIgnoreCase(parts[5], Ending(true));
    assert ParseParts(parts, localMachine, true, compressed)
           == ParseFields(parts[0], parts[1], parts[3], parts[4], localMachine, true, compressed);
    FieldsReadBack(f, range, compressed, localMachine, lo, hi);
  }

  /** The machine name, job name, month tag and range of a valid archive read back as the archive. */
  lemma FieldsReadBack(f: ArchiveFields, range: string, compressed: bool, localMachine: string,
                       lo: Option<int>, hi: Option<int>)
    requires IntendedFields(f) && PlainMachineName(f.machineName)
    requires lo.Some? ==> 1 <= lo.value <= Int64Max
    requires hi.Some? ==> 1 <= hi.value <= Int64Max
    requires Split(range, '-') == [if lo.Some? then PadDecimal(lo.value, 6) else "",
                                    if hi.Some? then PadDecimal(hi.value, 6) else ""]
    requires lo.Some? && hi.Some? ==> lo.value <= hi.value
    ensures ParseFields(f.machineName, f.jobName, MonthTagOf(f.year, f.month), range, localMachine, true, compressed)
            == Ok(f.(ridMin := lo, ridMax := hi, compressed := compressed))
  {
    var tag := MonthTagOf(f.year, f.month);
    assert ParseFields(f.machineName, f.jobName, tag, range, localMachine, true, compressed)
           == CheckedFieldsIntended(f.machineName, localMachine, f.jobName, f.year, f.month, lo, hi, compressed) by {
      MonthTagReadsBack(f.year, f.month);
      RidPartParses(lo);
      RidPartParses(hi);
    }
    assert CheckedFieldsIntended(f.machineName, localMachine, f.jobName, f.year, f.month, lo, hi, compressed)
           == Ok(f.(ridMin := lo, ridMax := hi, compressed := compressed));
  }

  /** A bound written as the range part writes it reads back as the bound. */
  lemma RidPartParses(rid: Option<int>)
    requires rid.Some? ==> 1 <= rid.value <= Int64Max
    ensures ParseRid(if rid.Some? then PadDecimal(rid.value, 6) else "") == Ok(rid)
  {
    if rid.Some? {
      PadDecimalRoundTrip(rid.value, 6);
      ParseDigits(PadDecimal(rid.value, 6));
    }
  }

  /** Parsing the unsealed name gives the archive back, with both bounds unknown. */
  lemma UnsealedNameRoundTrip(f: ArchiveFields, compressed: bool, localMachine: string)
    requires IntendedFields(f) && PlainMachineName(f.machineName)
    ensures ParseArchiveFileNameIntended(UnsealedName(f, Some(compressed)), localMachine)
            == Ok(f.(ridMin := None, ridMax := None, compressed := compressed))
  {
    assert Split("-", '-') == ["", ""] by {
      assert IndexOf("-", '-') == 0;
      assert "-"[1..] == "";
    }
    ArchiveFileNameParses(f, "-", compressed, localMachine, None, None);
  }

  /** Parsing the sealed name of a sealed archive gives the archive back. */
  lemma SealedNameRoundTrip(f: ArchiveFields, compressed: bool, localMachine: string)
    requires IntendedFields(f) && PlainMachineName(f.machineName)
    requires f.ridMin.Some? && f.ridMax.Some? && f.ridMax.value <= Int64Max
    ensures SealedName(f, Some(compressed)).Ok?
    ensures ParseArchiveFileNameIntended(SealedName(f, Some(compressed)).value, localMachine)
            == Ok(f.(compressed := compressed))
  {
    var range := SealedRange(f.ridMin.value, f.ridMax.value);
    SealedRangeSplits(f.ridMin.value, f.ridMax.value);
    assert SealedName(f, Some(compressed)).value == ArchiveFileName(f, range, compressed);
    ArchiveFileNameParses(f, range, compressed, localMachine, f.ridMin, f.ridMax);
  }

  /** The range part of a sealed name splits at its dash into the two padded bounds, and holds no dot or separator. */
  lemma SealedRangeSplits(lo: nat, hi: nat)
    ensures Split(SealedRange(lo, hi), '-') == [PadDecimal(lo, 6), PadDecimal(hi, 6)]
    ensures '.' !in SealedRange(lo, hi) && '/' !in SealedRange(lo, hi) && '\\' !in SealedRange(lo, hi)
  {
    var a, b := PadDecimal(lo, 6), PadDecimal(hi, 6);
    assert SealedRange(lo, hi) == Join([a, b], '-');
    assert Split(Join([a, b], '-'), '-') == [a, b] by {
      assert forall i :: 0 <= i < |a| ==> IsDigit(a[i]);
      assert forall i :: 0 <= i < |b| ==> IsDigit(b[i]);
      SplitJoin([a, b], '-');
    }
    DigitPairAvoids(a, b, '.');
    DigitPairAvoids(a, b, '/');
    DigitPairAvoids(a, b, '\\');
  }

  /** Two runs of digits joined with a dash hold no other character. */
  lemma DigitPairAvoids(a: string, b: string, c: char)
    requires AllDigits(a) && AllDigits(b) && !IsDigit(c) && c != '-'
    ensures c !in Join([a, b], '-')
  {
    JoinAvoids([a, b], '-', c);
  }

  /**
   * A dotted job name passes the search, but the name of its archive splits
   * into more than six dot-separated parts, so even the intended parser
   * cannot read it back.
   */
  lemma DottedJobNameUnreadable(f: ArchiveFields, compressed: Option<bool>, localMachine: string)
    requires ValidFields(f) && PlainMachineName(f.machineName)
    requires '.' in f.jobName && '\\' !in f.jobName && '/' !in f.jobName
    ensures |Split(Stem(UnsealedName(f, compressed)), '.')| > 6
    ensures ParseArchiveFileNameIntended(UnsealedName(f, compressed), localMachine) == Err(ArgumentException)
    ensures ParseArchiveFileNameAsWritten(UnsealedName(f, compressed), localMachine) == Err(ArgumentException)
  {
    var c := if compressed.Some? then compressed.value else f.compressed;
    var name := UnsealedName(f, compressed);
    assert name == ArchiveFileName(f, "-", c);
    ArchiveNameStem(f, "-", c);
    MoreSplitParts(NameParts(f, "-"), 1);
    assert BaseName(name) == name;
    PartCountRejects(name, localMachine, true);
    PartCountRejects(name, localMachine, false);
  }

  /** A name whose stem does not split into six parts is refused with ArgumentException. */
  lemma PartCountRejects(fileName: string, localMachine: string, intended: bool)
    requires |Split(Stem(BaseName(fileName)), '.')| != 6
    ensures ParseFileNameWith(fileName, localMachine, intended) == Err(ArgumentException)
  {
  }

  /** Joining parts with '.' when one of them holds a '.' splits back into more parts. */
  lemma MoreSplitParts(parts: seq<string>, k: nat)
    requires k < |parts| && '.' in parts[k]
    ensures |Split(Join(parts, '.'), '.')| > |parts|
  {
    SplitCount(Join(parts, '.'), '.');
    JoinCountAtLeast(parts, '.', k);
    assert multiset(parts[k])['.'] > 0;
  }

  // ---------------------------------------------------------------- finding archives

  /**
   * The directory search pattern prefix + "*" + ending, matched ignoring
   * case: the name starts with the prefix and ends with the ending, with room
   * for both.
   */
  predicate GlobMatches(name: string, prefix: string, ending: string)
  {
    |prefix| + |ending| <= |name| && EqualsIgnoreCase(name[..|prefix|], prefix) && EndsWithIgnoreCase(name, ending)
  }

  /** The names of the listing, in order, that match the pattern and have the given number of dot-separated parts. */
  function Candidates(listing: seq<string>, prefix: string, ending: string, partCount: nat): (r: seq<string>)
    ensures forall i :: 0 <= i < |r| ==> r[i] in listing && GlobMatches(r[i], prefix, ending)
  {
    if listing == [] then []
    else
      var rest := Candidates(listing[..|listing| - 1], prefix, ending, partCount);
      var name := listing[|listing| - 1];
      if GlobMatches(name, prefix, ending) && |Split(name, '.')| == partCount then rest + [name] else rest
  }

  /** The archives the names describe, in order, skipping the names the parser rejects. */
  function ParsedArchives(names: seq<string>, localMachine: string, intended: bool): (r: seq<ArchiveFields>)
    ensures |r| <= |names|
    ensures forall i :: 0 <= i < |r| ==> ValidFields(r[i])
  {
    if names == [] then []
    else
      var rest := ParsedArchives(names[..|names| - 1], localMachine, intended);
      var parsed := ParseFileNameWith(names[|names| - 1], localMachine, intended);
      if parsed.Ok? then rest + [parsed.value] else rest
  }

  /** The prefix every archive of a job on a machine starts with. */
  function ArchivePrefix(machineName: string, jobName: string): string
  {
    machineName + "." + jobName + ".archive."
  }

  /**
   * FindArchives over a directory listing, as the source writes it: the job
   * name must pass the search (ArgumentException); the plain archives come
   * first, then the compressed ones, and names that fail to parse are
   * skipped. A missing machine name means the local one. With the parser as
   * written every name is skipped.
   */
  method FindArchives(listing: seq<string>, localMachine: string, machineName: Option<string>, jobName: string)
    returns (r: Result<seq<ArchiveFields>>)
    ensures r.Ok? <==> IsValidJobNameAsWritten(jobName)
    ensures r.Err? ==> r.error == ArgumentException
    ensures r.Ok? ==> r.value == ParsedArchives(
      ArchiveCandidates(listing, if machineName.Some? then machineName.value else localMachine, jobName),
      localMachine, false)
    ensures r.Ok? ==> r.value == []
  {
    var machine := if machineName.Some? then machineName.value else localMachine;
    if !IsValidJobNameAsWritten(jobName) {
      return Err(ArgumentException);
    }
    var names := ArchiveCandidates(listing, machine, jobName);
    var files := ParseEach(names, localMachine, false);
    AsWrittenFindsNothing(names, localMachine);
    return Ok(files);
  }

  /** FindArchives with the job name matched in full and the intended parser. */
  method FindArchivesIntended(listing: seq<string>, localMachine: string, machineName: Option<string>, jobName: string)
    returns (r: Result<seq<ArchiveFields>>)
    ensures r.Ok? <==> IsValidJobName(jobName)
    ensures r.Err? ==> r.error == ArgumentException
    ensures r.Ok? ==> r.value == ParsedArchives(
      ArchiveCandidates(listing, if machineName.Some? then machineName.value else localMachine, jobName),
      localMachine, true)
  {
    var machine := if machineName.Some? then machineName.value else localMachine;
    if !IsValidJobName(jobName) {
      return Err(ArgumentException);
    }
    var names := ArchiveCandidates(listing, machine, jobName);
    var files := ParseEach(names, localMachine, true);
    return Ok(files);
  }

  /** The try/catch loop of FindArchives: parse each name, keeping the ones that parse. */
  method ParseEach(names: seq<string>, localMachine: string, intended: bool) returns (files: seq<ArchiveFields>)
    ensures files == ParsedArchives(names, localMachine, intended)
  {
    files := [];
    for i := 0 to |names|
      invariant files == ParsedArchives(names[..i], localMachine, intended)
    {
      var parsed := ParseFileNameWith(names[i], localMachine, intended);
      ParsedArchivesPrefix(names, i, localMachine, intended);
      if parsed.Ok? {
        files := files + [parsed.value];
      }
    }
    assert names[..|names|] == names;
  }

  /** One more name of the list: its archive is appended when it parses. */
  lemma ParsedArchivesPrefix(names: seq<string>, i: nat, localMachine: string, intended: bool)
    requires i < |names|
    ensures var parsed := ParseFileNameWith(names[i], localMachine, intended);
      ParsedArchives(names[..i + 1], localMachine, intended)
      == if parsed.Ok? then ParsedArchives(names[..i], localMachine, intended) + [parsed.value]
         else ParsedArchives(names[..i], localMachine, intended)
  {
    assert names[..i + 1][..i] == names[..i];
  }

  /** The plain candidates (six parts) followed by the compressed ones (seven parts). */
  function ArchiveCandidates(listing: seq<string>, machineName: string, jobName: string): seq<string>
  {
    var prefix := ArchivePrefix(machineName, jobName);
    Candidates(listing, prefix, ".evarc", 6) + Candidates(listing, prefix, ".evarc.gz", 7)
  }

  /** With the parser as written, FindArchives never reports an archive. */
  lemma {:induction false} AsWrittenFindsNothing(names: seq<string>, localMachine: string)
    ensures ParsedArchives(names, localMachine, false) == []
  {
    if names != [] {
      AsWrittenFindsNothing(names[..|names| - 1], localMachine);
      AsWrittenParseAlwaysFails(names[|names| - 1], localMachine);
    }
  }

  // ---------------------------------------------------------------- the class

  class ArchiveInfo {
    const machineName: string
    const jobName: string
    const year: int
    const month: int
    var ridMin: Option<int>
    var ridMax: Option<int>
    /** The default compression of the file names. */
    var compressed: bool

    function Fields(): ArchiveFields
      reads this
    {
      ArchiveFields(machineName, jobName, year, month, ridMin, ridMax, compressed)
    }

    ghost predicate Valid()
      reads this
    {
      ValidFields(Fields())
    }

    constructor FromFields(f: ArchiveFields)
      requires ValidFields(f)
      ensures Fields() == f && Valid()
    {
      machineName, jobName, year, month := f.machineName, f.jobName, f.year, f.month;
      ridMin, ridMax, compressed := f.ridMin, f.ridMax, f.compressed;
    }

    /** The ArchiveInfo constructor: the checks of CheckedFields, then the fields. */
    static method New(machineName: string, localMachine: string, jobName: string, year: int, month: int,
                      ridMin: Option<int>, ridMax: Option<int>, compressed: bool) returns (r: Result<ArchiveInfo>)
      ensures r.Ok? <==> CheckedFields(machineName, localMachine, jobName, year, month, ridMin, ridMax, compressed).Ok?
      ensures r.Err? ==> r.error == CheckedFields(machineName, localMachine, jobName, year, month, ridMin, ridMax, compressed).error
      ensures r.Ok? ==> fresh(r.value) && r.value.Valid()
                        && r.value.Fields() == CheckedFields(machineName, localMachine, jobName, year, month, ridMin, ridMax, compressed).value
    {
      var checked := CheckedFields(machineName, localMachine, jobName, year, month, ridMin, ridMax, compressed);
      if checked.Err? {
        return Err(checked.error);
      }
      var info := new ArchiveInfo.FromFields(checked.value);
      return Ok(info);
    }

    /** "yyyy-MM": the form the parser demands, reading back as the archive's year and month. */
    function MonthTag(): (r: string)
      reads this
      requires Valid()
      ensures MonthTagMatches(r) && DecimalValue(r[..4]) == year && DecimalValue(r[5..7]) == month
    {
      MonthTagReadsBack(year, month);
      MonthTagOf(year, month)
    }

    /** IsSealed: both bounds are known. */
    predicate IsSealed()
      reads this
    {
      ridMin.Some? && ridMax.Some?
    }

    /**
     * GetUnsealedName: parsing the name gives this archive back with both
     * bounds unknown and the compression the name was made with.
     */
    function GetUnsealedName(compressed: Option<bool>): (r: string)
      reads this
      requires Valid()
      ensures IntendedFields(Fields()) && PlainMachineName(machineName) ==>
                forall localMachine :: ParseArchiveFileNameIntended(r, localMachine)
                  == Ok(Fields().(ridMin := None, ridMax := None,
                                  compressed := if compressed.Some? then compressed.value else this.compressed))
    {
      var c := if compressed.Some? then compressed.value else this.compressed;
      assert UnsealedName(Fields(), compressed) == UnsealedName(Fields(), Some(c));
      assert IntendedFields(Fields()) && PlainMachineName(machineName) ==>
               forall localMachine :: ParseArchiveFileNameIntended(UnsealedName(Fields(), Some(c)), localMachine)
                 == Ok(Fields().(ridMin := None, ridMax := None, compressed := c)) by {
        if IntendedFields(Fields()) && PlainMachineName(machineName) {
          forall localMachine
            ensures ParseArchiveFileNameIntended(UnsealedName(Fields(), Some(c)), localMachine)
                    == Ok(Fields().(ridMin := None, ridMax := None, compressed := c))
          {
            UnsealedNameRoundTrip(Fields(), c, localMachine);
          }
        }
      }
      UnsealedName(Fields(), compressed)
    }

    /** GetSealedName: InvalidOperationException unless the archive is sealed. */
    function GetSealedName(compressed: Option<bool>): (r: Result<string>)
      reads this
      requires Valid()
      ensures r.Ok? <==> IsSealed()
      ensures r.Err? ==> r.error == InvalidOperation
    {
      SealedName(Fields(), compressed)
    }

    /**
     * Seal: the range must be positive and ordered (ArgumentException), and
     * agree with any bound already known (InvalidOperationException).
     */
    method Seal(lo: int, hi: int) returns (r: Result<()>)
      requires Valid()
      modifies this
      ensures Valid()
      ensures r.Ok? <==> 1 <= lo <= hi && (old(ridMin).Some? ==> old(ridMin).value == lo)
                                       && (old(ridMax).Some? ==> old(ridMax).value == hi)
      ensures r.Err? && !(1 <= lo <= hi) ==> r.error == ArgumentException
      ensures r.Err? && 1 <= lo <= hi ==> r.error == InvalidOperation
      ensures r.Ok? ==> ridMin == Some(lo) && ridMax == Some(hi) && IsSealed()
      ensures r.Err? ==> ridMin == old(ridMin) && ridMax == old(ridMax)
      ensures compressed == old(compressed)
    {
      if lo < 1 || hi < 1 || lo > hi {
        return Err(ArgumentException);
      }
      if (ridMin.Some? && ridMin.value != lo) || (ridMax.Some? && ridMax.value != hi) {
        return Err(InvalidOperation);
      }
      ridMin, ridMax := Some(lo), Some(hi);
      return Ok(());
    }

    /**
     * FromFileName as the source writes it: parse the name, then build the
     * ArchiveInfo. The parser as written rejects every name
     * (AsWrittenParseAlwaysFails), so this always fails.
     */
    static method FromFileName(fileName: string, localMachine: string) returns (r: Result<ArchiveInfo>)
      ensures r.Ok? <==> ParseArchiveFileNameAsWritten(fileName, localMachine).Ok?
      ensures r.Err? ==> r.error == ParseArchiveFileNameAsWritten(fileName, localMachine).error
      ensures r.Ok? ==> fresh(r.value) && r.value.Valid()
                        && r.value.Fields() == ParseArchiveFileNameAsWritten(fileName, localMachine).value
    {
      var parsed := ParseArchiveFileNameAsWritten(fileName, localMachine);
      if parsed.Err? {
        return Err(parsed.error);
      }
      var info := new ArchiveInfo.FromFields(parsed.value);
      return Ok(info);
    }

    /** FromFileName with the intended parser. */
    static method FromFileNameIntended(fileName: string, localMachine: string) returns (r: Result<ArchiveInfo>)
      ensures r.Ok? <==> ParseArchiveFileNameIntended(fileName, localMachine).Ok?
      ensures r.Err? ==> r.error == ParseArchiveFileNameIntended(fileName, localMachine).error
      ensures r.Ok? ==> fresh(r.value) && r.value.Valid()
                        && r.value.Fields() == ParseArchiveFileNameIntended(fileName, localMachine).value
    {
      var parsed := ParseArchiveFileNameIntended(fileName, localMachine);
      if parsed.Err? {
        return Err(parsed.error);
      }
      var info := new ArchiveInfo.FromFields(parsed.value);
      return Ok(info);
    }
  }

  /** Sealing twice with the same range succeeds and leaves the archive as the first Seal left it. */
  method SealTwice(info: ArchiveInfo, lo: int, hi: int) returns (first: Result<()>, second: Result<()>)
    requires info.Valid()
    modifies info
    ensures first.Ok? ==> second.Ok? && info.ridMin == Some(lo) && info.ridMax == Some(hi)
  {
    first := info.Seal(lo, hi);
    second := info.Seal(lo, hi);
  }
}
