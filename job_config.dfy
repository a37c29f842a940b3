/*
 * Job names and the job configuration record (Lcl.EventLog/Jobs/EventJobConfig.cs).
 *
 * The job name pattern is one ASCII letter, then letters and digits, then
 * groups of a '-' or '_' followed by at least one letter or digit, matched
 * ignoring case. The source searches for the pattern anywhere in the name
 * rather than matching the whole name; IsValidJobNameAsWritten models that
 * search, which CheckJobName and NewEventJobConfig use, and IsValidJobName
 * matches the whole name, as the ...Intended members do.
 */
module JobConfig {
  import opened Common

  predicate IsAsciiAlnum(c: char) { IsAsciiLetter(c) || IsDigit(c) }
  predicate IsNameSeparator(c: char) { c == '-' || c == '_' }

  /**
   * s is matched in full by the pattern: a letter first, then letters, digits
   * and separators, where every separator is followed by a letter or digit.
   */
  predicate MatchesJobNamePattern(s: string)
  {
    |s| >= 1 && IsAsciiLetter(s[0])
    && (forall i :: 1 <= i < |s| ==> IsAsciiAlnum(s[i]) || IsNameSeparator(s[i]))
    && (forall i :: 1 <= i < |s| && IsNameSeparator(s[i]) ==> i + 1 < |s| && IsAsciiAlnum(s[i + 1]))
  }

  /** Regex.IsMatch with the unanchored pattern: some stretch of the name matches it. */
  predicate IsValidJobNameAsWritten(name: string)
  {
    exists i, j :: 0 <= i < j <= |name| && MatchesJobNamePattern(name[i..j])
  }

  /** The job name test as evidently intended: the whole name matches the pattern. */
  predicate IsValidJobName(name: string)
  {
    MatchesJobNamePattern(name)
  }

  /** The unanchored search accepts exactly the names that contain an ASCII letter. */
  lemma AsWrittenMeansSomeLetter(name: string)
    ensures IsValidJobNameAsWritten(name) <==> exists k :: 0 <= k < |name| && IsAsciiLetter(name[k])
  {
    if exists k :: 0 <= k < |name| && IsAsciiLetter(name[k]) {
      var k :| 0 <= k < |name| && IsAsciiLetter(name[k]);
      assert MatchesJobNamePattern(name[k..k + 1]);
    }
    if IsValidJobNameAsWritten(name) {
      var i, j :| 0 <= i < j <= |name| && MatchesJobNamePattern(name[i..j]);
      assert name[i..j][0] == name[i];
    }
  }

  /** "a.b" passes the search although a dot can never be part of a job name. */
  lemma AsWrittenAcceptsDottedName()
    ensures IsValidJobNameAsWritten("a.b") && !IsValidJobName("a.b")
  {
    assert MatchesJobNamePattern("a.b"[0..1]);
    assert !IsAsciiAlnum("a.b"[1]) && !IsNameSeparator("a.b"[1]);
  }

  /** A valid job name is never empty and holds only letters, digits, '-' and '_'. */
  lemma ValidJobNameCharacters(name: string)
    requires IsValidJobName(name)
    ensures |name| >= 1 && IsAsciiLetter(name[0]) && !IsNameSeparator(name[|name| - 1])
    ensures forall i :: 0 <= i < |name| ==> IsAsciiAlnum(name[i]) || IsNameSeparator(name[i])
    ensures '.' !in name && '/' !in name && '\\' !in name
  {
    var last := |name| - 1;
    assert last >= 1 && IsNameSeparator(name[last]) ==> last + 1 < |name|;
  }

  /** Every name the intended test accepts also passes the search. */
  lemma ValidJobNamePassesSearch(name: string)
    requires IsValidJobName(name)
    ensures IsValidJobNameAsWritten(name)
  {
    assert name[0..|name|] == name;
  }

  /**
   * ThrowIfInvalidJobName as written: InvalidOperationException exactly for
   * the names the search rejects, which are the names without an ASCII letter.
   */
  function CheckJobName(name: string): (r: Result<()>)
    ensures r.Ok? <==> IsValidJobNameAsWritten(name)
    ensures r.Ok? <==> exists k :: 0 <= k < |name| && IsAsciiLetter(name[k])
    ensures r.Err? ==> r.error == InvalidOperation
  {
    AsWrittenMeansSomeLetter(name);
    if IsValidJobNameAsWritten(name) then Ok(()) else Err(InvalidOperation)
  }

  /** ThrowIfInvalidJobName as intended: InvalidOperationException unless the whole name matches. */
  function CheckJobNameIntended(name: string): (r: Result<()>)
    ensures r.Ok? <==> IsValidJobName(name)
    ensures r.Ok? ==> CheckJobName(name).Ok?
    ensures r.Err? ==> r.error == InvalidOperation
  {
    if IsValidJobName(name) then ValidJobNamePassesSearch(name); Ok(()) else Err(InvalidOperation)
  }

  /** The search lets through names the pattern was meant to refuse: "1abc" and "a.b". */
  lemma CheckJobNameAcceptsMore()
    ensures CheckJobName("1abc").Ok? && CheckJobNameIntended("1abc").Err?
    ensures CheckJobName("a.b").Ok? && CheckJobNameIntended("a.b").Err?
  {
    AsWrittenAcceptsDottedName();
    assert IsAsciiLetter("1abc"[1]);
    assert !IsAsciiLetter("1abc"[0]);
  }

  /** An EventJobConfig: the job name, the event log it imports from and whether that needs admin rights. */
  datatype EventJobConfig = EventJobConfig(name: string, log: string, admin: bool)

  /** The constructor stores the fields, then rejects a name without a letter, as the search does. */
  function NewEventJobConfig(name: string, log: string, admin: bool): (r: Result<EventJobConfig>)
    ensures r.Ok? <==> IsValidJobNameAsWritten(name)
    ensures r.Err? ==> r.error == InvalidOperation
    ensures r.Ok? ==> r.value.name == name && r.value.log == log && r.value.admin == admin
  {
    var _ :- CheckJobName(name);
    Ok(EventJobConfig(name, log, admin))
  }

  /** The constructor with the intended, whole-name check. */
  function NewEventJobConfigIntended(name: string, log: string, admin: bool): (r: Result<EventJobConfig>)
    ensures r.Ok? <==> IsValidJobName(name)
    ensures r.Err? ==> r.error == InvalidOperation
    ensures r.Ok? ==> r == NewEventJobConfig(name, log, admin)
    ensures r.Ok? ==> r.value.name == name && r.value.log == log && r.value.admin == admin
  {
    var _ :- CheckJobNameIntended(name);
    Ok(EventJobConfig(name, log, admin))
  }
}
