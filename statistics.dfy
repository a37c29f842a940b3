/*
 * Running statistics over a group of event rows
 * (Lcl.EventLog/Jobs/Database/EventRowStatistics.cs). The fields are C#
 * int and long properties: Count and TotalSize wrap around on overflow, as
 * unchecked int arithmetic does; the minima and maxima start from the
 * long sentinels. Each field is tied to a function of the rows observed
 * since the last Reset.
 */
module Statistics {
  import opened Common
  import opened Rows
  import opened Utf8

  /** An EventViewRow: a header with the event's XML. */
  datatype EventViewRow = EventViewRow(header: EventHeaderRow, xml: string)

  function RidOf(row: EventViewRow): int { row.header.recordId }
  function StampOf(row: EventViewRow): int { row.header.stamp }
  /** Xml.Length: the length of the XML in UTF-16 code units. */
  function XmlLength(row: EventViewRow): int { Utf16Length(row.xml) }

  /** Math.Min folded over the rows from left to right, starting at init. */
  function RunningMin(rows: seq<EventViewRow>, f: EventViewRow -> int, init: int): int
  {
    if rows == [] then init else Min(RunningMin(rows[..|rows| - 1], f, init), f(rows[|rows| - 1]))
  }

  /** Math.Max folded over the rows from left to right, starting at init. */
  function RunningMax(rows: seq<EventViewRow>, f: EventViewRow -> int, init: int): int
  {
    if rows == [] then init else Max(RunningMax(rows[..|rows| - 1], f, init), f(rows[|rows| - 1]))
  }

  /** The sum of the XML lengths, without wrap-around. */
  function TotalLength(rows: seq<EventViewRow>): nat
  {
    if rows == [] then 0 else TotalLength(rows[..|rows| - 1]) + Utf16Length(rows[|rows| - 1].xml)
  }

  /** Observing one more row folds it into each running value. */
  lemma RunningStep(rows: seq<EventViewRow>, row: EventViewRow, f: EventViewRow -> int, init: int)
    ensures RunningMin(rows + [row], f, init) == Min(RunningMin(rows, f, init), f(row))
    ensures RunningMax(rows + [row], f, init) == Max(RunningMax(rows, f, init), f(row))
  {
    assert (rows + [row])[..|rows|] == rows;
  }

  /** The wrapped count and the wrapped total size follow unchecked int addition. */
  lemma WrappedStep(rows: seq<EventViewRow>, row: EventViewRow)
    ensures ToInt32(|rows + [row]|) == ToInt32(ToInt32(|rows|) + 1)
    ensures ToInt32(TotalLength(rows + [row])) == ToInt32(ToInt32(TotalLength(rows)) + XmlLength(row))
  {
    assert (rows + [row])[..|rows|] == rows;
    ToInt32Add(|rows|, 1);
    ToInt32Add(TotalLength(rows), XmlLength(row));
  }

  /**
   * The running minimum is a lower bound of every row and of the sentinel,
   * and is either the sentinel or one of the rows' values.
   */
  lemma {:induction false} RunningMinIsMinimum(rows: seq<EventViewRow>, f: EventViewRow -> int, init: int)
    ensures forall i :: 0 <= i < |rows| ==> RunningMin(rows, f, init) <= f(rows[i])
    ensures RunningMin(rows, f, init) <= init
    ensures RunningMin(rows, f, init) == init
            || exists i :: 0 <= i < |rows| && RunningMin(rows, f, init) == f(rows[i])
  {
    if rows != [] {
      var front := rows[..|rows| - 1];
      RunningMinIsMinimum(front, f, init);
      assert forall i :: 0 <= i < |front| ==> front[i] == rows[i];
    }
  }

  /** The running maximum is an upper bound of every row and of the sentinel, and is one of them. */
  lemma {:induction false} RunningMaxIsMaximum(rows: seq<EventViewRow>, f: EventViewRow -> int, init: int)
    ensures forall i :: 0 <= i < |rows| ==> f(rows[i]) <= RunningMax(rows, f, init)
    ensures init <= RunningMax(rows, f, init)
    ensures RunningMax(rows, f, init) == init
            || exists i :: 0 <= i < |rows| && RunningMax(rows, f, init) == f(rows[i])
  {
    if rows != [] {
      var front := rows[..|rows| - 1];
      RunningMaxIsMaximum(front, f, init);
      assert forall i :: 0 <= i < |front| ==> front[i] == rows[i];
    }
  }

  /** A long-valued field starting from the long.MaxValue sentinel ends at the least value observed. */
  lemma {:induction false} SentinelMinIsAttained(rows: seq<EventViewRow>, f: EventViewRow -> int)
    requires rows != [] && forall i :: 0 <= i < |rows| ==> IsInt64(f(rows[i]))
    ensures exists i :: 0 <= i < |rows| && RunningMin(rows, f, Int64Max) == f(rows[i])
  {
    RunningMinIsMinimum(rows, f, Int64Max);
    if RunningMin(rows, f, Int64Max) == Int64Max {
      assert RunningMin(rows, f, Int64Max) == f(rows[0]);
    }
  }

  /** The values of the statistics fields, apart from the tag. */
  datatype Totals = Totals(count: int, minRid: int, maxRid: int, totalSize: int,
                           maxSize: int, stampMin: int, stampMax: int)

  /** What the fields hold after observing the rows, in order, from a Reset. */
  function Summarize(rows: seq<EventViewRow>): Totals
  {
    Totals(ToInt32(|rows|), RunningMin(rows, RidOf, Int64Max), RunningMax(rows, RidOf, Int64Min),
           ToInt32(TotalLength(rows)), RunningMax(rows, XmlLength, 0),
           RunningMin(rows, StampOf, Int64Max), RunningMax(rows, StampOf, Int64Min))
  }

  /** One ObserveRow step on the field values: C# int arithmetic for the sums, Math.Min/Max for the bounds. */
  function ObserveStep(t: Totals, row: EventViewRow): Totals
  {
    Totals(ToInt32(t.count + 1), Min(t.minRid, RidOf(row)), Max(t.maxRid, RidOf(row)),
           ToInt32(t.totalSize + XmlLength(row)), Max(t.maxSize, XmlLength(row)),
           Min(t.stampMin, StampOf(row)), Max(t.stampMax, StampOf(row)))
  }

  /**
   * Updating the fields one row at a time keeps them equal to the summary of
   * all rows seen, wrap-around included.
   */
  lemma SummarizeStep(rows: seq<EventViewRow>, row: EventViewRow)
    ensures Summarize(rows + [row]) == ObserveStep(Summarize(rows), row)
  {
    RunningStep(rows, row, RidOf, Int64Max);
    RunningStep(rows, row, RidOf, Int64Min);
    RunningStep(rows, row, StampOf, Int64Max);
    RunningStep(rows, row, StampOf, Int64Min);
    RunningStep(rows, row, XmlLength, 0);
    WrappedStep(rows, row);
  }

  /**
   * What the fields mean once rows have been observed: the id and stamp
   * ranges enclose every row, the maximum size bounds every row's XML
   * length, and the count is exact while it fits in an int.
   */
  lemma SummarizeBounds(rows: seq<EventViewRow>)
    requires rows != []
    ensures var t := Summarize(rows);
      t.minRid <= t.maxRid && t.stampMin <= t.stampMax
      && (forall i :: 0 <= i < |rows| ==> t.minRid <= RidOf(rows[i]) <= t.maxRid)
      && (forall i :: 0 <= i < |rows| ==> t.stampMin <= StampOf(rows[i]) <= t.stampMax)
      && (forall i :: 0 <= i < |rows| ==> XmlLength(rows[i]) <= t.maxSize)
      && (|rows| <= Int32Max ==> t.count == |rows|)
  {
    RunningMinIsMinimum(rows, RidOf, Int64Max);
    RunningMaxIsMaximum(rows, RidOf, Int64Min);
    RunningMinIsMinimum(rows, StampOf, Int64Max);
    RunningMaxIsMaximum(rows, StampOf, Int64Min);
    RunningMaxIsMaximum(rows, XmlLength, 0);
  }

  class EventRowStatistics {
    var tag: string
    var count: Int32
    var minRid: int
    var maxRid: int
    var totalSize: Int32
    var maxSize: Int32
    var stampMin: int
    var stampMax: int
    /** The rows observed since the last Reset. */
    ghost var observed: seq<EventViewRow>

    function Current(): Totals
      reads this
    {
      Totals(count, minRid, maxRid, totalSize, maxSize, stampMin, stampMax)
    }

    ghost predicate Valid()
      reads this
    {
      Current() == Summarize(observed)
    }

    /** The constructor is Reset(""). */
    constructor ()
      ensures Valid() && observed == [] && tag == ""
    {
      tag, count, minRid, maxRid, totalSize, maxSize, stampMin, stampMax := "", 0, Int64Max, Int64Min, 0, 0, Int64Max, Int64Min;
      observed := [];
    }

    /** Reset: a new tag, no rows, and the sentinels back in place. */
    method Reset(newTag: string)
      modifies this
      ensures Valid() && observed == [] && tag == newTag
      ensures count == 0 && totalSize == 0 && maxSize == 0
      ensures minRid == Int64Max && maxRid == Int64Min && stampMin == Int64Max && stampMax == Int64Min
    {
      tag := newTag;
      count := 0;
      minRid := Int64Max;
      maxRid := Int64Min;
      totalSize := 0;
      stampMin := Int64Max;
      stampMax := Int64Min;
      maxSize := 0;
      observed := [];
    }

    /**
     * ObserveRow: one more row. The record id and stamp are longs and the
     * XML length an int, as their C# types make them.
     */
    method ObserveRow(row: EventViewRow)
      requires Valid()
      requires IsInt64(row.header.recordId) && IsInt64(row.header.stamp) && IsInt32(XmlLength(row))
      modifies this
      ensures observed == old(observed) + [row] && tag == old(tag)
      ensures Current() == ObserveStep(old(Current()), row)
      ensures Valid()
      ensures minRid <= maxRid && stampMin <= stampMax
    {
      var next := ObserveStep(Current(), row);
      assert Summarize(observed + [row]) == next by {
        SummarizeStep(observed, row);
      }
      observed := observed + [row];
      count, minRid, maxRid, totalSize := next.count, next.minRid, next.maxRid, next.totalSize;
      maxSize, stampMin, stampMax := next.maxSize, next.stampMin, next.stampMax;
    }
  }
}
