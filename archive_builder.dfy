/*
 * Resolving the record range of a monthly archive
 * (Lcl.EventLog/Jobs/Archival/ArchiveBuilder.cs).
 *
 * Validate snaps the starting record id to the first stored record at or
 * after it, finds the last record of the archive (the given end snapped
 * down, or the last record before the first one stamped in the next month),
 * checks that both ends fall in the same calendar month, describes the
 * archive and refuses it when its file already exists.
 *
 * The event database is its EventHeader table in record-id order; the
 * QueryEventHeaders calls are OpenDbV2 members whose source is not
 * available; they are assumed to select the rows whose record id lies
 * in the given bounds and whose stamp is at least the given minimum, in
 * record-id order (or the reverse), keeping the first. Year and month come
 * from an abstract Calendar (see TimeUtil); the job folder is reduced to the
 * set of file names it already holds.
 */
module ArchiveBuilders {
  import opened Common
  import opened Rows
  import opened TimeUtil
  import opened ArchiveInfos

  // ---------------------------------------------------------------- the header query

  /** The EventHeader table as QueryEventHeaders reads it: record ids strictly increasing. */
  predicate RidSorted(hs: seq<EventHeaderRow>)
  {
    forall i, j :: 0 <= i < j < |hs| ==> hs[i].recordId < hs[j].recordId
  }

  /** The filter of QueryEventHeaders: record id at least lo, at most hi if given, stamp at least tMin if given. */
  predicate Selected(h: EventHeaderRow, lo: int, hi: Option<int>, tMin: Option<int>)
  {
    lo <= h.recordId && (hi.Some? ==> h.recordId <= hi.value) && (tMin.Some? ==> tMin.value <= h.stamp)
  }

  /** QueryEventHeaders(lo, hi, tMin, reverse: false, limit: 1): the selected row of lowest record id. */
  function FirstSelected(hs: seq<EventHeaderRow>, lo: int, hi: Option<int>, tMin: Option<int>): (r: Option<EventHeaderRow>)
    ensures r.Some? ==> r.value in hs && Selected(r.value, lo, hi, tMin)
  {
    if hs == [] then None
    else if Selected(hs[0], lo, hi, tMin) then Some(hs[0])
    else FirstSelected(hs[1..], lo, hi, tMin)
  }

  /** FirstSelected finds nothing only when no row is selected, and otherwise the selected row of lowest record id. */
  lemma {:induction false} FirstSelectedLeast(hs: seq<EventHeaderRow>, lo: int, hi: Option<int>, tMin: Option<int>)
    requires RidSorted(hs)
    ensures var r := FirstSelected(hs, lo, hi, tMin);
      && (r.None? <==> forall i :: 0 <= i < |hs| ==> !Selected(hs[i], lo, hi, tMin))
      && (r.Some? ==> forall i :: 0 <= i < |hs| && Selected(hs[i], lo, hi, tMin) ==> r.value.recordId <= hs[i].recordId)
  {
    if hs != [] && !Selected(hs[0], lo, hi, tMin) {
      FirstSelectedLeast(hs[1..], lo, hi, tMin);
      assert forall i :: 1 <= i < |hs| ==> hs[i] == hs[1..][i - 1];
    }
  }

  /** QueryEventHeaders(lo, hi, reverse: true, limit: 1): the selected row of highest record id. */
  function LastSelected(hs: seq<EventHeaderRow>, lo: int, hi: Option<int>): (r: Option<EventHeaderRow>)
    ensures r.Some? ==> r.value in hs && Selected(r.value, lo, hi, None)
  {
    if hs == [] then None
    else if Selected(hs[|hs| - 1], lo, hi, None) then Some(hs[|hs| - 1])
    else LastSelected(hs[..|hs| - 1], lo, hi)
  }

  /** LastSelected finds nothing only when no row is selected, and otherwise the selected row of highest record id. */
  lemma {:induction false} LastSelectedGreatest(hs: seq<EventHeaderRow>, lo: int, hi: Option<int>)
    requires RidSorted(hs)
    ensures var r := LastSelected(hs, lo, hi);
      && (r.None? <==> forall i :: 0 <= i < |hs| ==> !Selected(hs[i], lo, hi, None))
      && (r.Some? ==> forall i :: 0 <= i < |hs| && Selected(hs[i], lo, hi, None) ==> hs[i].recordId <= r.value.recordId)
  {
    if hs != [] && !Selected(hs[|hs| - 1], lo, hi, None) {
      LastSelectedGreatest(hs[..|hs| - 1], lo, hi);
    }
  }

  // ---------------------------------------------------------------- months

  /** DateTime.Year and DateTime.Month: the calendar date of the day the ticks fall in. */
  function DateOf(dt: DateTime, cal: Calendar): (d: Date)
    requires 0 <= dt.ticks <= MaxTicks && ValidCalendar(cal)
    ensures ValidDate(d) && DayNumber(d) == dt.ticks / TicksPerDay
  {
    cal.dateOf(dt.ticks / TicksPerDay)
  }

  /** The month after the given one, December rolling over into January of the next year. */
  function NextMonth(year: int, month: int): (r: (int, int))
    requires 1 <= month <= 12
    ensures 1 <= r.1 <= 12
    ensures r.1 == 1 <==> month == 12
    ensures r.0 == (if month == 12 then year + 1 else year) && (month < 12 ==> r.1 == month + 1)
  {
    if month == 12 then (year + 1, 1) else (year, month + 1)
  }

  /**
   * new DateTime(year, month, 1, 0, 0, 0, DateTimeKind.Utc).Ticks: the first
   * tick of the month; a year past 9999 is an ArgumentOutOfRangeException.
   */
  function MonthStart(year: int, month: int): (r: Result<int>)
    requires 1 <= year && 1 <= month <= 12
    ensures r.Ok? <==> year <= 9999
    ensures r.Err? ==> r.error == ArgumentOutOfRange
    ensures r.Ok? ==> ValidDate(Date(year, month, 1)) && r.value == DayNumber(Date(year, month, 1)) * TicksPerDay
  {
    if year > 9999 then Err(ArgumentOutOfRange)
    else Ok((DaysBeforeYear(year) + DaysBeforeMonth(year, month)) * TicksPerDay)
  }

  /**
   * The cutoff of the automatic end: the epoch ticks (TicksSinceEpoch of a
   * Utc DateTime) of the first instant of the month after the date's.
   */
  function Cutoff(d: Date): (r: Result<int>)
    requires ValidDate(d)
    ensures r.Ok? <==> NextMonth(d.year, d.month).0 <= 9999
    ensures r.Err? ==> r.error == ArgumentOutOfRange
  {
    var n := NextMonth(d.year, d.month);
    var start :- MonthStart(n.0, n.1);
    Ok(start - TicksAtEpoch)
  }

  // ---------------------------------------------------------------- the resolution

  /** The messages Validate returns instead of null. */
  datatype Complaint =
    | EarlierValidationFailed
    | NoRecordsAtStart
    | EndBeforeStart
    | NoRecordsAtEnd
    | NotSameMonth
    | ArchiveExists(fileName: string)

  /**
   * What Validate yields: Ok(None) is the null of success, Ok(Some(c)) a
   * message, Err(e) an exception that escapes.
   */
  type Outcome = Result<Option<Complaint>>

  /** How lines 131-173 end: with the tail record of the archive, or with an outcome for Validate. */
  datatype TailStage = Tail(record: EventHeaderRow) | Stop(outcome: Outcome)

  /**
   * Lines 131-173. Without an end, the tail is the last record from the start
   * on that comes before the first record stamped at or after the first tick
   * of the next month (the last record of all if there is no such record).
   * With an end, the tail is the last record between the start and the end.
   * Enumerable.First on an empty answer is an InvalidOperationException.
   */
  function TailOf(hs: seq<EventHeaderRow>, start: int, ridEnd: Option<int>, startDate: Date): (t: TailStage)
    requires ValidDate(startDate)
    ensures t.Tail? ==> t.record in hs && start <= t.record.recordId
    ensures t.Tail? && ridEnd.Some? ==> t.record.recordId <= ridEnd.value
    ensures t.Stop? ==> t.outcome.Err? || t.outcome.value == Some(EndBeforeStart) || t.outcome.value == Some(NoRecordsAtEnd)
  {
    if ridEnd.None? then
      var endStamp := Cutoff(startDate);
      if endStamp.Err? then Stop(Err(endStamp.error))
      else
        var nextMonthRecord := FirstSelected(hs, start, None, Some(endStamp.value));
        var last := LastSelected(hs, start, if nextMonthRecord.None? then None else Some(nextMonthRecord.value.recordId - 1));
        if last.None? then Stop(Err(InvalidOperation)) else Tail(last.value)
    else if ridEnd.value < start then Stop(Ok(Some(EndBeforeStart)))
    else
      var last := LastSelected(hs, start, ridEnd);
      if last.None? then Stop(Ok(Some(NoRecordsAtEnd))) else Tail(last.value)
  }

  /** What a first Validate leaves behind: the bounds as it set them, the archive it described, and its outcome. */
  datatype Resolution = Resolution(ridStart: int, ridEnd: Option<int>, archive: Option<ArchiveFields>, outcome: Outcome)

  /**
   * Lines 183-199: describe the sealed, compressed archive of the month and
   * refuse it when its plain or its ".gz" file already exists.
   */
  function Conclude(start: int, end: int, startDate: Date, machine: string, localMachine: string, jobName: string,
                    existing: set<string>): (r: Resolution)
    ensures r.ridStart == start && r.ridEnd == Some(end)
    ensures r.outcome == Ok(None) <==>
              var f := CheckedFields(machine, localMachine, jobName, startDate.year, startDate.month, Some(start), Some(end), true);
              && f.Ok? && SealedName(f.value, Some(false)).Ok?
              && SealedName(f.value, Some(false)).value !in existing && SealedName(f.value, Some(true)).value !in existing
    ensures r.archive.Some? <==> CheckedFields(machine, localMachine, jobName, startDate.year, startDate.month, Some(start), Some(end), true).Ok?
    ensures r.archive.Some? ==> ValidFields(r.archive.value)
    ensures r.outcome.Ok? && r.outcome.value.Some? ==> r.outcome.value.value.ArchiveExists?
  {
    var fields := CheckedFields(machine, localMachine, jobName, startDate.year, startDate.month, Some(start), Some(end), true);
    if fields.Err? then Resolution(start, Some(end), None, Err(fields.error))
    else
      var name := SealedName(fields.value, Some(false));
      SealedNameCompressed(fields.value);
      if name.Err? then Resolution(start, Some(end), Some(fields.value), Err(name.error))
      else if name.value in existing then Resolution(start, Some(end), Some(fields.value), Ok(Some(ArchiveExists(name.value))))
      else if name.value + ".gz" in existing then
        Resolution(start, Some(end), Some(fields.value), Ok(Some(ArchiveExists(name.value + ".gz"))))
      else Resolution(start, Some(end), Some(fields.value), Ok(None))
  }

  /** The plain sealed name with ".gz" appended is the compressed sealed name. */
  lemma SealedNameCompressed(f: ArchiveFields)
    requires ValidFields(f)
    ensures SealedName(f, Some(false)).Ok? ==> SealedName(f, Some(true)) == Ok(SealedName(f, Some(false)).value + ".gz")
  {
    if f.ridMin.Some? && f.ridMax.Some? {
      var parts := Join(NameParts(f, SealedRange(f.ridMin.value, f.ridMax.value)), '.');
      assert parts + Suffix(false) == parts;
    }
  }

  /** The first Validate of a builder whose bounds are ridStart and ridEnd, over the headers of the store. */
  function Resolve(hs: seq<EventHeaderRow>, ridStart: int, ridEnd: Option<int>, cal: Calendar,
                   machine: string, localMachine: string, jobName: string, existing: set<string>): (r: Resolution)
    requires ValidCalendar(cal)
    ensures r.outcome == Ok(Some(NoRecordsAtStart)) <==> FirstSelected(hs, ridStart, ridEnd, None).None?
    ensures r.outcome != Ok(Some(NoRecordsAtStart)) ==> r.ridStart == FirstSelected(hs, ridStart, ridEnd, None).value.recordId
    ensures r.archive.Some? ==> ValidFields(r.archive.value)
  {
    var first := FirstSelected(hs, ridStart, ridEnd, None);
    if first.None? then Resolution(ridStart, ridEnd, None, Ok(Some(NoRecordsAtStart)))
    else
      var start := first.value.recordId;
      var startTime := EpochDateTime(first.value.stamp);
      if startTime.Err? then Resolution(start, ridEnd, None, Err(startTime.error))
      else
        var startDate := DateOf(startTime.value, cal);
        var tail := TailOf(hs, start, ridEnd, startDate);
        if tail.Stop? then Resolution(start, ridEnd, None, tail.outcome)
        else
          // an explicit end has been snapped down to the tail record, an absent one is still absent
          var endSoFar := if ridEnd.Some? then Some(tail.record.recordId) else None;
          var tailTime := EpochDateTime(tail.record.stamp);
          if tailTime.Err? then Resolution(start, endSoFar, None, Err(tailTime.error))
          else
            var tailDate := DateOf(tailTime.value, cal);
            if tailDate.year != startDate.year || tailDate.month != startDate.month then
              Resolution(start, endSoFar, None, Ok(Some(NotSameMonth)))
            else
              Conclude(start, tail.record.recordId, startDate, machine, localMachine, jobName, existing)
  }

  /** Lines 131-173 of Validate: the queries that find the tail record of the archive. */
  method QueryTail(hs: seq<EventHeaderRow>, start: int, ridEnd: Option<int>, startDate: Date) returns (t: TailStage)
    requires ValidDate(startDate)
    ensures t == TailOf(hs, start, ridEnd, startDate)
  {
    if ridEnd.None? {
      var next := NextMonth(startDate.year, startDate.month);
      var endTime := MonthStart(next.0, next.1);
      if endTime.Err? {
        return Stop(Err(endTime.error));
      }
      var endStamp := endTime.value - TicksAtEpoch;
      var nextMonthRecord := FirstSelected(hs, start, None, Some(endStamp));
      var last;
      if nextMonthRecord.None? {
        last := LastSelected(hs, start, None);
      } else {
        last := LastSelected(hs, start, Some(nextMonthRecord.value.recordId - 1));
      }
      if last.None? {
        return Stop(Err(InvalidOperation));
      }
      return Tail(last.value);
    }
    if ridEnd.value < start {
      return Stop(Ok(Some(EndBeforeStart)));
    }
    var last := LastSelected(hs, start, ridEnd);
    if last.None? {
      return Stop(Ok(Some(NoRecordsAtEnd)));
    }
    return Tail(last.value);
  }

  // ---------------------------------------------------------------- what Validate guarantees

  /** The stamp lies in the given month: it converts to a DateTime whose year and month are those. */
  ghost predicate InMonth(stamp: int, year: int, month: int, cal: Calendar)
    requires ValidCalendar(cal)
  {
    InDateTimeRange(stamp) && DateOf(EpochDateTime(stamp).value, cal).year == year
    && DateOf(EpochDateTime(stamp).value, cal).month == month
  }

  /** Every day of a month comes before the first day of the next month. */
  lemma BeforeNextMonth(d: Date)
    requires ValidDate(d)
    ensures var n := NextMonth(d.year, d.month);
            DayNumber(d) < DaysBeforeYear(n.0) + DaysBeforeMonth(n.0, n.1)
  {
    DaysBeforeMonthBound(d.year, d.month);
    if d.month == 12 {
      YearLength(d.year);
    }
  }

  /** A record is stamped before the cutoff of its own month. */
  lemma StampBeforeCutoff(stamp: int, cal: Calendar)
    requires ValidCalendar(cal) && InDateTimeRange(stamp)
    ensures var d := DateOf(EpochDateTime(stamp).value, cal);
            Cutoff(d).Ok? ==> stamp < Cutoff(d).value
  {
    var ticks := TicksAtEpoch + stamp;
    var d := DateOf(EpochDateTime(stamp).value, cal);
    BeforeNextMonth(d);
    var q := ticks / TicksPerDay;
    assert ticks < (q + 1) * TicksPerDay;
  }

  /** Two rows of the table with the same record id are the same row. */
  lemma SameRidSameRow(hs: seq<EventHeaderRow>, a: EventHeaderRow, b: EventHeaderRow)
    requires RidSorted(hs) && a in hs && b in hs
    ensures a.recordId == b.recordId ==> a == b
  {
    var i :| 0 <= i < |hs| && hs[i] == a;
    var j :| 0 <= j < |hs| && hs[j] == b;
    assert a.recordId == b.recordId ==> !(i < j) && !(j < i);
  }

  /**
   * The start snaps to the first record at or after it (and at or before the
   * given end); Validate reports that there is none exactly when no record
   * lies in that range.
   */
  lemma StartSnaps(hs: seq<EventHeaderRow>, ridStart: int, ridEnd: Option<int>, cal: Calendar,
                   machine: string, localMachine: string, jobName: string, existing: set<string>)
    requires RidSorted(hs) && ValidCalendar(cal)
    ensures var r := Resolve(hs, ridStart, ridEnd, cal, machine, localMachine, jobName, existing);
      && (r.outcome == Ok(Some(NoRecordsAtStart)) <==> forall i :: 0 <= i < |hs| ==> !Selected(hs[i], ridStart, ridEnd, None))
      && (r.outcome != Ok(Some(NoRecordsAtStart)) ==>
            (exists h :: h in hs && h.recordId == r.ridStart && Selected(h, ridStart, ridEnd, None))
            && forall i :: 0 <= i < |hs| && Selected(hs[i], ridStart, ridEnd, None) ==> r.ridStart <= hs[i].recordId)
  {
    FirstSelectedLeast(hs, ridStart, ridEnd, None);
  }

  /**
   * The tail query after a successful start always finds a record, as the
   * source's comments promise: the start record itself lies in its range. The
   * only way the tail stage stops is a start in December 9999, whose next
   * month DateTime cannot represent.
   */
  lemma TailAlwaysFound(hs: seq<EventHeaderRow>, ridStart: int, ridEnd: Option<int>, cal: Calendar)
    requires RidSorted(hs) && ValidCalendar(cal)
    requires FirstSelected(hs, ridStart, ridEnd, None).Some?
    requires InDateTimeRange(FirstSelected(hs, ridStart, ridEnd, None).value.stamp)
    ensures var first := FirstSelected(hs, ridStart, ridEnd, None).value;
            var startDate := DateOf(EpochDateTime(first.stamp).value, cal);
            var t := TailOf(hs, first.recordId, ridEnd, startDate);
            t.Tail? || (ridEnd.None? && Cutoff(startDate).Err? && t == Stop(Err(ArgumentOutOfRange)))
  {
    var first := FirstSelected(hs, ridStart, ridEnd, None).value;
    var startDate := DateOf(EpochDateTime(first.stamp).value, cal);
    var start := first.recordId;
    var i :| 0 <= i < |hs| && hs[i] == first;
    if ridEnd.None? {
      StampBeforeCutoff(first.stamp, cal);
      var cutoff := Cutoff(startDate);
      if cutoff.Ok? {
        var next := FirstSelected(hs, start, None, Some(cutoff.value));
        var hi := if next.None? then None else Some(next.value.recordId - 1);
        if next.Some? {
          SameRidSameRow(hs, next.value, first);
        }
        assert Selected(hs[i], start, hi, None);
        LastSelectedGreatest(hs, start, hi);
      }
    } else {
      assert Selected(hs[i], start, ridEnd, None);
      LastSelectedGreatest(hs, start, ridEnd);
    }
  }

  /**
   * Without an end, every record from the start to the tail is stamped before
   * the cutoff, and the first record after the tail, if any, at or after it:
   * the archive stops where the next month begins.
   */
  lemma AutomaticEndAtMonthBoundary(hs: seq<EventHeaderRow>, start: int, startDate: Date)
    requires RidSorted(hs) && ValidDate(startDate)
    requires TailOf(hs, start, None, startDate).Tail?
    ensures Cutoff(startDate).Ok?
    ensures var tail := TailOf(hs, start, None, startDate).record.recordId;
            && (forall i :: 0 <= i < |hs| && start <= hs[i].recordId <= tail ==> hs[i].stamp < Cutoff(startDate).value)
            && (forall i :: 0 <= i < |hs| && tail < hs[i].recordId ==>
                  exists j :: 0 <= j < |hs| && tail < hs[j].recordId <= hs[i].recordId && Cutoff(startDate).value <= hs[j].stamp)
  {
    var cutoff := Cutoff(startDate).value;
    var next := FirstSelected(hs, start, None, Some(cutoff));
    var hi := if next.None? then None else Some(next.value.recordId - 1);
    var tail := LastSelected(hs, start, hi).value;
    assert TailOf(hs, start, None, startDate) == Tail(tail);
    StampedBeforeNext(hs, start, cutoff, hi, tail);
    NextAfterTail(hs, start, cutoff, hi, tail);
  }

  /** The records up to the tail are stamped before the cutoff, since the next-month record comes after them all. */
  lemma StampedBeforeNext(hs: seq<EventHeaderRow>, start: int, cutoff: int, hi: Option<int>, tail: EventHeaderRow)
    requires RidSorted(hs)
    requires var next := FirstSelected(hs, start, None, Some(cutoff));
             hi == if next.None? then None else Some(next.value.recordId - 1)
    requires Selected(tail, start, hi, None)
    ensures forall i :: 0 <= i < |hs| && start <= hs[i].recordId <= tail.recordId ==> hs[i].stamp < cutoff
  {
    FirstSelectedLeast(hs, start, None, Some(cutoff));
  }

  /** Past the tail, the next-month record is the first one. */
  lemma NextAfterTail(hs: seq<EventHeaderRow>, start: int, cutoff: int, hi: Option<int>, tail: EventHeaderRow)
    requires RidSorted(hs)
    requires var next := FirstSelected(hs, start, None, Some(cutoff));
             hi == if next.None? then None else Some(next.value.recordId - 1)
    requires LastSelected(hs, start, hi) == Some(tail)
    ensures forall i :: 0 <= i < |hs| && tail.recordId < hs[i].recordId ==>
              exists j :: 0 <= j < |hs| && tail.recordId < hs[j].recordId <= hs[i].recordId && cutoff <= hs[j].stamp
  {
    var next := FirstSelected(hs, start, None, Some(cutoff));
    LastSelectedGreatest(hs, start, hi);
    forall i | 0 <= i < |hs| && tail.recordId < hs[i].recordId
      ensures exists j :: 0 <= j < |hs| && tail.recordId < hs[j].recordId <= hs[i].recordId && cutoff <= hs[j].stamp
    {
      assert !Selected(hs[i], start, hi, None);
      var j :| 0 <= j < |hs| && hs[j] == next.value;
      assert tail.recordId < hs[j].recordId <= hs[i].recordId && cutoff <= hs[j].stamp;
    }
  }

  /** With an end, the tail is the last record between the start and that end. */
  lemma ExplicitEndSnapsDown(hs: seq<EventHeaderRow>, start: int, end: int, startDate: Date)
    requires RidSorted(hs) && ValidDate(startDate)
    requires TailOf(hs, start, Some(end), startDate).Tail?
    ensures var tail := TailOf(hs, start, Some(end), startDate).record.recordId;
            start <= tail <= end
            && forall i :: 0 <= i < |hs| && start <= hs[i].recordId <= end ==> hs[i].recordId <= tail
  {
    LastSelectedGreatest(hs, start, Some(end));
  }

  /**
   * Rows 1-6 stamped before the cutoff and rows 7-9 after it: from start 1
   * without an end, the archive ends at row 6.
   */
  lemma NineRowsEndAtSix(hs: seq<EventHeaderRow>, startDate: Date)
    requires ValidDate(startDate) && Cutoff(startDate).Ok?
    requires |hs| == 9 && forall i :: 0 <= i < 9 ==> hs[i].recordId == i + 1
    requires forall i :: 0 <= i < 6 ==> hs[i].stamp < Cutoff(startDate).value
    requires forall i :: 6 <= i < 9 ==> Cutoff(startDate).value <= hs[i].stamp
    ensures TailOf(hs, 1, None, startDate) == Tail(hs[5])
  {
    var cutoff := Cutoff(startDate).value;
    FirstSelectedLeast(hs, 1, None, Some(cutoff));
    var next := FirstSelected(hs, 1, None, Some(cutoff));
    assert Selected(hs[6], 1, None, Some(cutoff));
    SameRidSameRow(hs, next.value, hs[6]);
    LastSelectedGreatest(hs, 1, Some(6));
    var last := LastSelected(hs, 1, Some(6));
    assert Selected(hs[5], 1, Some(6), None);
    SameRidSameRow(hs, last.value, hs[5]);
  }

  /**
   * A successful Validate describes a sealed, compressed archive of one
   * month: its start and end are records of the store, both stamped in the
   * archive's month, and neither of its file names exists yet.
   */
  lemma ValidatedArchive(hs: seq<EventHeaderRow>, ridStart: int, ridEnd: Option<int>, cal: Calendar,
                         machine: string, localMachine: string, jobName: string, existing: set<string>)
    requires ValidCalendar(cal)
    requires Resolve(hs, ridStart, ridEnd, cal, machine, localMachine, jobName, existing).outcome == Ok(None)
    ensures var r := Resolve(hs, ridStart, ridEnd, cal, machine, localMachine, jobName, existing);
      && r.archive.Some? && r.ridEnd.Some? && 1 <= r.ridStart <= r.ridEnd.value
      && var f := r.archive.value;
      && f == ArchiveFields(if machine == "" then localMachine else machine, jobName, f.year, f.month,
                            Some(r.ridStart), r.ridEnd, true)
      && 2000 <= f.year <= 2099
      && (exists a :: a in hs && a.recordId == r.ridStart && InMonth(a.stamp, f.year, f.month, cal))
      && (exists b :: b in hs && b.recordId == r.ridEnd.value && InMonth(b.stamp, f.year, f.month, cal))
      && SealedName(f, Some(false)).Ok? && SealedName(f, Some(false)).value !in existing
      && SealedName(f, Some(true)).value !in existing
  {
    var first := FirstSelected(hs, ridStart, ridEnd, None).value;
    var startDate := DateOf(EpochDateTime(first.stamp).value, cal);
    var tail := TailOf(hs, first.recordId, ridEnd, startDate).record;
    var r := Resolve(hs, ridStart, ridEnd, cal, machine, localMachine, jobName, existing);
    assert InMonth(first.stamp, startDate.year, startDate.month, cal);
    assert InMonth(tail.stamp, startDate.year, startDate.month, cal);
    assert r == Conclude(first.recordId, tail.recordId, startDate, machine, localMachine, jobName, existing);
  }

  /**
   * The checks of an explicit end (lines 160-170) never fire: the first query
   * is already bounded by that end, so the start never passes it and the
   * start record itself lies between the two.
   */
  lemma EndChecksNeverFire(hs: seq<EventHeaderRow>, ridStart: int, ridEnd: Option<int>, cal: Calendar,
                           machine: string, localMachine: string, jobName: string, existing: set<string>)
    requires RidSorted(hs) && ValidCalendar(cal)
    ensures var r := Resolve(hs, ridStart, ridEnd, cal, machine, localMachine, jobName, existing);
            r.outcome != Ok(Some(EndBeforeStart)) && r.outcome != Ok(Some(NoRecordsAtEnd))
  {
    var first := FirstSelected(hs, ridStart, ridEnd, None);
    if first.Some? && InDateTimeRange(first.value.stamp) {
      TailAlwaysFound(hs, ridStart, ridEnd, cal);
      var startDate := DateOf(EpochDateTime(first.value.stamp).value, cal);
      var t := TailOf(hs, first.value.recordId, ridEnd, startDate);
      if t.Tail? {
        var r := Resolve(hs, ridStart, ridEnd, cal, machine, localMachine, jobName, existing);
        assert r.outcome.Err? || r.outcome == Ok(Some(NotSameMonth))
               || r == Conclude(first.value.recordId, t.record.recordId, startDate, machine, localMachine, jobName, existing);
      }
    }
  }

  /** A job folder that already holds the archive's plain or compressed file makes Validate fail with ArchiveExists. */
  lemma ExistingArchiveRefused(hs: seq<EventHeaderRow>, ridStart: int, ridEnd: Option<int>, cal: Calendar,
                               machine: string, localMachine: string, jobName: string, existing: set<string>, plain: string)
    requires ValidCalendar(cal)
    requires Resolve(hs, ridStart, ridEnd, cal, machine, localMachine, jobName, existing).outcome == Ok(None)
    requires plain == SealedName(Resolve(hs, ridStart, ridEnd, cal, machine, localMachine, jobName, existing).archive.value,
                                 Some(false)).value
    ensures Resolve(hs, ridStart, ridEnd, cal, machine, localMachine, jobName, existing + {plain}).outcome
            == Ok(Some(ArchiveExists(plain)))
    ensures Resolve(hs, ridStart, ridEnd, cal, machine, localMachine, jobName, existing + {plain + ".gz"}).outcome
            == Ok(Some(ArchiveExists(plain + ".gz")))
  {
    var first := FirstSelected(hs, ridStart, ridEnd, None).value;
    var startDate := DateOf(EpochDateTime(first.stamp).value, cal);
    var tail := TailOf(hs, first.recordId, ridEnd, startDate).record;
    ConcludeAnyListing(hs, ridStart, ridEnd, cal, machine, localMachine, jobName, existing, existing);
    ConcludeAnyListing(hs, ridStart, ridEnd, cal, machine, localMachine, jobName, existing, existing + {plain});
    ConcludeAnyListing(hs, ridStart, ridEnd, cal, machine, localMachine, jobName, existing, existing + {plain + ".gz"});
    ConcludeRefuses(first.recordId, tail.recordId, startDate, machine, localMachine, jobName, existing, plain);
  }

  /** The existence check on its own: either name present in the folder is reported. */
  lemma ConcludeRefuses(start: int, end: int, startDate: Date, machine: string, localMachine: string, jobName: string,
                        existing: set<string>, plain: string)
    requires Conclude(start, end, startDate, machine, localMachine, jobName, existing).outcome == Ok(None)
    requires plain == SealedName(Conclude(start, end, startDate, machine, localMachine, jobName, existing).archive.value,
                                 Some(false)).value
    ensures Conclude(start, end, startDate, machine, localMachine, jobName, existing + {plain}).outcome
            == Ok(Some(ArchiveExists(plain)))
    ensures Conclude(start, end, startDate, machine, localMachine, jobName, existing + {plain + ".gz"}).outcome
            == Ok(Some(ArchiveExists(plain + ".gz")))
  {
  }

  /** Up to the existence check, Validate does not depend on the files of the job folder. */
  lemma ConcludeAnyListing(hs: seq<EventHeaderRow>, ridStart: int, ridEnd: Option<int>, cal: Calendar,
                           machine: string, localMachine: string, jobName: string, existing: set<string>, other: set<string>)
    requires ValidCalendar(cal)
    requires Resolve(hs, ridStart, ridEnd, cal, machine, localMachine, jobName, existing).archive.Some?
    ensures var first := FirstSelected(hs, ridStart, ridEnd, None).value;
            var startDate := DateOf(EpochDateTime(first.stamp).value, cal);
            var tail := TailOf(hs, first.recordId, ridEnd, startDate).record;
            Resolve(hs, ridStart, ridEnd, cal, machine, localMachine, jobName, other)
            == Conclude(first.recordId, tail.recordId, startDate, machine, localMachine, jobName, other)
  {
  }

  // ---------------------------------------------------------------- the class

  class ArchiveBuilder {
    /** Owner.Zone.Machine, the machine the archive is named after ("" for the local one). */
    const machine: string
    /** The local machine name, which ArchiveInfo substitutes for "". */
    const localMachine: string
    /** Owner.Configuration.Name. */
    const jobName: string
    var ridStart: int
    var ridEnd: Option<int>
    var hasBeenValidated: bool
    var isValid: bool
    var archiveInfo: ArchiveInfo?

    ghost predicate Valid()
      reads this, archiveInfo
    {
      (archiveInfo != null ==> archiveInfo.Valid()) && (isValid ==> hasBeenValidated && archiveInfo != null)
    }

    constructor (machine: string, localMachine: string, jobName: string, ridStart: int, ridEnd: Option<int>)
      ensures Valid()
      ensures this.machine == machine && this.localMachine == localMachine && this.jobName == jobName
      ensures this.ridStart == ridStart && this.ridEnd == ridEnd
      ensures !hasBeenValidated && !isValid && archiveInfo == null
    {
      this.machine, this.localMachine, this.jobName := machine, localMachine, jobName;
      this.ridStart, this.ridEnd := ridStart, ridEnd;
      hasBeenValidated, isValid, archiveInfo := false, false, null;
    }

    /**
     * GetArchiveFile: None (null) until an archive has been described, else
     * its sealed name, plain or compressed; the job folder is left out.
     */
    function GetArchiveFile(compressed: bool): (r: Option<Result<string>>)
      reads this, archiveInfo
      requires Valid()
      ensures r.None? <==> archiveInfo == null
      ensures r.Some? ==> r.value == SealedName(archiveInfo.Fields(), Some(compressed))
    {
      if archiveInfo == null then None else Some(archiveInfo.GetSealedName(Some(compressed)))
    }

    /**
     * Validate: a second call repeats the first verdict without looking at
     * the store again; the first call does what Resolve describes.
     */
    method Validate(hs: seq<EventHeaderRow>, cal: Calendar, existing: set<string>) returns (r: Outcome)
      requires Valid() && ValidCalendar(cal)
      modifies this
      ensures Valid()
      ensures old(hasBeenValidated) ==>
                r == (if isValid then Ok(None) else Ok(Some(EarlierValidationFailed)))
                && ridStart == old(ridStart) && ridEnd == old(ridEnd)
                && isValid == old(isValid) && hasBeenValidated && archiveInfo == old(archiveInfo)
      ensures !old(hasBeenValidated) ==>
                var res := Resolve(hs, old(ridStart), old(ridEnd), cal, machine, localMachine, jobName, existing);
                && hasBeenValidated && r == res.outcome && isValid == (r == Ok(None))
                && ridStart == res.ridStart && ridEnd == res.ridEnd
                && (res.archive.None? ==> archiveInfo == old(archiveInfo))
                && (res.archive.Some? ==> archiveInfo != null && fresh(archiveInfo) && archiveInfo.Fields() == res.archive.value)
    {
      if hasBeenValidated {
        return if isValid then Ok(None) else Ok(Some(EarlierValidationFailed));
      }
      hasBeenValidated := true;
      var first := FirstSelected(hs, ridStart, ridEnd, None);
      if first.None? {
        return Ok(Some(NoRecordsAtStart));
      }
      ridStart := first.value.recordId;
      var startTime := EpochDateTime(first.value.stamp);
      if startTime.Err? {
        return Err(startTime.error);
      }
      var startDate := DateOf(startTime.value, cal);
      var stage := QueryTail(hs, ridStart, ridEnd, startDate);
      if stage.Stop? {
        return stage.outcome;
      }
      var tail := stage.record;
      if ridEnd.Some? {
        ridEnd := Some(tail.recordId);
      }
      var tailTime := EpochDateTime(tail.stamp);
      if tailTime.Err? {
        return Err(tailTime.error);
      }
      var tailDate := DateOf(tailTime.value, cal);
      if tailDate.year != startDate.year || tailDate.month != startDate.month {
        return Ok(Some(NotSameMonth));
      }
      ridEnd := Some(tail.recordId);
      r := Describe(startDate, tail.recordId, existing);
    }

    /**
     * Lines 183-199 of Validate: describe the archive of the resolved range
     * and check that neither of its files exists yet.
     */
    method Describe(startDate: Date, end: int, existing: set<string>) returns (r: Outcome)
      requires Valid() && hasBeenValidated && !isValid
      modifies this
      ensures Valid() && hasBeenValidated
      ensures ridStart == old(ridStart) && ridEnd == old(ridEnd)
      ensures var res := Conclude(ridStart, end, startDate, machine, localMachine, jobName, existing);
              && r == res.outcome && isValid == (r == Ok(None))
              && (res.archive.None? ==> archiveInfo == old(archiveInfo))
              && (res.archive.Some? ==> archiveInfo != null && fresh(archiveInfo) && archiveInfo.Fields() == res.archive.value)
    {
      var info := ArchiveInfo.New(machine, localMachine, jobName, startDate.year, startDate.month,
                                  Some(ridStart), Some(end), true);
      if info.Err? {
        return Err(info.error);
      }
      archiveInfo := info.value;
      var name := archiveInfo.GetSealedName(Some(false));
      if name.Err? {
        return Err(name.error);
      }
      if name.value in existing {
        return Ok(Some(ArchiveExists(name.value)));
      }
      var compressedName := name.value + ".gz";
      if compressedName in existing {
        return Ok(Some(ArchiveExists(compressedName)));
      }
      isValid := true;
      return Ok(None);
    }

    /**
     * Build: InvalidOperationException before a Validate and after a failed
     * one; past those guards the source has no implementation yet.
     */
    method Build() returns (r: Result<()>)
      ensures r.Err?
      ensures r.error == (if hasBeenValidated && isValid then NotImplemented else InvalidOperation)
    {
      if !hasBeenValidated {
        return Err(InvalidOperation);
      }
      if !isValid {
        return Err(InvalidOperation);
      }
      return Err(NotImplemented);
    }
  }

  /** A second Validate repeats the verdict of the first. */
  method ValidateTwice(b: ArchiveBuilder, hs: seq<EventHeaderRow>, cal: Calendar, existing: set<string>)
    returns (first: Outcome, second: Outcome)
    requires b.Valid() && ValidCalendar(cal)
    modifies b
    ensures second == if first == Ok(None) then Ok(None) else Ok(Some(EarlierValidationFailed))
  {
    first := b.Validate(hs, cal, existing);
    second := b.Validate(hs, cal, existing);
  }
}
