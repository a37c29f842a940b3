/*
 * The text blob file format (Lcl.EventLog/Utilities/TextBlobStore.cs): each
 * text is written as STX (0x02), its UTF-8 bytes, ETX (0x03) and LF (0x0A);
 * the reader scans for STX and then for the next ETX through a fixed buffer
 * of maxBlobSize + 8 bytes that it compacts and refills from the stream.
 *
 * As written, MoveToNextRecord stores the stale position -1 into the read
 * pointer whenever the buffered bytes hold no STX, and FillBuffer reports
 * data whenever its tail pointer is past 0, so once any byte has been read
 * the reader never reports the end of the stream: the next read after the
 * last record indexes the buffer at -1. The members named AsWritten keep
 * that behaviour; TryReadIntended and ReadAllIntended use the corrected scan
 * (refill and search again; FillBuffer always compacts).
 *
 * The stream hands out at most readLimit bytes per read (at least 1). The
 * reader refills once when a record's ETX is not buffered, so a short read
 * can make it report a record as unterminated; with full reads (a limit of
 * at least the buffer's length) it reads exactly what NextBlob describes.
 */
module TextBlobStore {
  import opened Common
  import opened Utf8

  const RecordStart: byte := 0x02
  const RecordEnd: byte := 0x03
  const RecordFiller: byte := 0x0A
  /** The default limit of both classes. */
  const DefaultMaxBlobSize: int := 0xFF00
  /** The largest limit the writer accepts. */
  const MaxBlobSizeLimit: int := 0xFFF0

  /** The first position of b in s, or |s| when b does not occur. */
  function FirstIndex(s: seq<byte>, b: byte): (i: nat)
    ensures i <= |s|
    ensures forall j :: 0 <= j < i ==> s[j] != b
    ensures i < |s| ==> s[i] == b
  {
    if s == [] then 0
    else if s[0] == b then 0
    else 1 + FirstIndex(s[1..], b)
  }

  /** b occurs in s exactly when its first position lies inside s. */
  lemma FirstIndexFound(s: seq<byte>, b: byte)
    ensures FirstIndex(s, b) < |s| <==> b in s
  {
  }

  /** A byte found in a prefix is found at the same place in the whole. */
  lemma FirstIndexPrefix(s: seq<byte>, t: seq<byte>, b: byte)
    requires b in s
    ensures FirstIndex(s + t, b) == FirstIndex(s, b)
  {
    var i := FirstIndex(s, b);
    assert (s + t)[..i] == s[..i] && (s + t)[i] == b;
  }

  /** Skipping a prefix free of b shifts the first position of b by the prefix length. */
  lemma FirstIndexSkip(s: seq<byte>, k: nat, b: byte)
    requires k <= |s| && b !in s[..k]
    ensures FirstIndex(s, b) == k + FirstIndex(s[k..], b)
  {
    var j := FirstIndex(s[k..], b);
    assert s[..k + j] == s[..k] + s[k..][..j];
    if k + j < |s| {
      assert s[k + j] == s[k..][j];
    }
  }

  /** Array.IndexOf(a, b, start, count): the first index of b in a[start..start+count], or -1. */
  method ArrayIndexOf(a: array<byte>, b: byte, start: int, count: int) returns (i: int)
    requires 0 <= start && 0 <= count && start + count <= a.Length
    ensures var k := FirstIndex(a[start..start + count], b);
            i == if k < count then start + k else -1
  {
    var j := 0;
    while j < count && a[start + j] != b
      invariant 0 <= j <= count && b !in a[start..start + j]
    {
      assert a[start..start + j + 1] == a[start..start + j] + [a[start + j]];
      j := j + 1;
    }
    ghost var w := a[start..start + count];
    assert w[..j] == a[start..start + j];
    if j < count {
      assert w[j] == b;
      FirstIndexSkip(w, j, b);
      i := start + j;
    } else {
      assert w == w[..j];
      i := -1;
    }
  }

  // ---------------------------------------------------------------- the file format

  /** The bytes Writer.Write emits for one text. */
  function Record(s: string): seq<byte>
  {
    [RecordStart] + Encode(s) + [RecordEnd, RecordFiller]
  }

  /** The bytes a sequence of Write calls emits, first text first. */
  function Blobs(ss: seq<string>): seq<byte>
  {
    if ss == [] then [] else Record(ss[0]) + Blobs(ss[1..])
  }

  lemma {:induction false} BlobsSnoc(ss: seq<string>, s: string)
    ensures Blobs(ss + [s]) == Blobs(ss) + Record(s)
  {
    if ss == [] {
      assert [] + [s] == [s];
    } else {
      assert (ss + [s])[1..] == ss[1..] + [s];
      BlobsSnoc(ss[1..], s);
      SeqAssoc(Record(ss[0]), Blobs(ss[1..]), Record(s));
    }
  }

  /** A text Write accepts under the limit: at most maxBlobSize UTF-8 bytes and no ETX. */
  predicate Storable(s: string, maxBlobSize: int)
  {
    ByteCount(s) <= maxBlobSize && (RecordEnd as char) !in s
  }

  /** What one read yields, and the bytes still to be read after it (buffered or in the stream). */
  datatype BlobStep = BlobStep(outcome: Result<Option<string>>, rest: seq<byte>)

  /**
   * The intended TryRead on a reader whose unread bytes are p and whose buffer
   * holds size bytes: skip to the first STX (none: the end, null); the record
   * is the text up to the first ETX after it, which must lie within one
   * buffer's length of the STX, or the read fails with an
   * InvalidOperationException. A zero-length buffer never delivers a byte.
   */
  function NextBlob(p: seq<byte>, size: nat): (r: BlobStep)
    ensures r.outcome.Ok? && r.outcome.value.Some? ==> |r.rest| < |p|
    ensures r.outcome.Err? ==> r.outcome.error == InvalidOperation
  {
    if size == 0 then BlobStep(Ok(None), p)
    else
      var s := FirstIndex(p, RecordStart);
      if s == |p| then BlobStep(Ok(None), [])
      else
        var q := p[s..];
        var e := FirstIndex(q, RecordEnd);
        if e < |q| && e < size then BlobStep(Ok(Some(Decode(q[1..e]))), q[e + 1..])
        else BlobStep(Err(InvalidOperation), q)
  }

  /** ReadAll: the records up to the end, and the exception that stopped the enumeration, if any. */
  function ReadAllBlobs(p: seq<byte>, size: nat): (seq<string>, Option<Exception>)
    decreases |p|
  {
    var step := NextBlob(p, size);
    match step.outcome
    case Err(e) => ([], Some(e))
    case Ok(None) => ([], None)
    case Ok(Some(s)) =>
      var (more, failure) := ReadAllBlobs(step.rest, size);
      ([s] + more, failure)
  }

  /**
   * What the intended TryRead may yield on unread bytes p through a buffer
   * of size bytes and reads of at most limit bytes: the step NextBlob
   * describes, or, when reads can be short, an InvalidOperationException for
   * a record whose ETX the one refill did not bring, with the record left
   * unread.
   */
  predicate ReadOutcome(r: Result<Option<string>>, rest: seq<byte>, p: seq<byte>, size: nat, limit: nat)
  {
    var step := NextBlob(p, size);
    BlobStep(r, rest) == step
    || (limit < size && step.outcome.Ok? && step.outcome.value.Some?
        && r == Err(InvalidOperation) && rest == p[FirstIndex(p, RecordStart)..])
  }

  lemma ReadAllBlobsStep(p: seq<byte>, size: nat, s: string, rest: seq<byte>)
    requires NextBlob(p, size) == BlobStep(Ok(Some(s)), rest)
    ensures ReadAllBlobs(p, size) == ([s] + ReadAllBlobs(rest, size).0, ReadAllBlobs(rest, size).1)
  {
  }

  /**
   * After filler without STX, a record written by Write under a limit of
   * size - 8 reads back as its text, leaving the LF and what follows.
   */
  lemma NextBlobOfRecord(f: seq<byte>, s: string, rest: seq<byte>, size: nat)
    requires RecordStart !in f && Storable(s, size - 8)
    ensures NextBlob(f + Record(s) + rest, size) == BlobStep(Ok(Some(s)), [RecordFiller] + rest)
  {
    var e := Encode(s);
    var p := f + Record(s) + rest;
    var q := [RecordStart] + e + [RecordEnd, RecordFiller] + rest;
    RecordLayout(f, e, rest);
    FirstIndexHead(q, RecordStart);
    FirstIndexSkip(p, |f|, RecordStart);
    AsciiByteInEncoding(s, RecordEnd);
    FirstIndexHead(q[1 + |e|..], RecordEnd);
    FirstIndexSkip(q, 1 + |e|, RecordEnd);
    NextBlobFound(p, size, |f|, 1 + |e|);
    DecodeEncode(s);
  }

  /** Where the parts of filler, a record and what follows lie. */
  lemma RecordLayout(f: seq<byte>, e: seq<byte>, rest: seq<byte>)
    ensures var q := [RecordStart] + e + [RecordEnd, RecordFiller] + rest;
            var p := f + ([RecordStart] + e + [RecordEnd, RecordFiller]) + rest;
            p[..|f|] == f && p[|f|..] == q && q[0] == RecordStart
            && q[..1 + |e|] == [RecordStart] + e && q[1..1 + |e|] == e
            && q[1 + |e|..] == [RecordEnd, RecordFiller] + rest && q[2 + |e|..] == [RecordFiller] + rest
  {
  }

  lemma FirstIndexHead(s: seq<byte>, b: byte)
    requires |s| > 0 && s[0] == b
    ensures FirstIndex(s, b) == 0
  {
  }

  /** NextBlob at the end of the stream, or through a buffer that holds nothing. */
  lemma NextBlobEnd(p: seq<byte>, size: nat)
    requires size == 0 || RecordStart !in p
    ensures NextBlob(p, size) == BlobStep(Ok(None), if size == 0 then p else [])
  {
    FirstIndexFound(p, RecordStart);
  }

  /** Bytes before the first STX do not change what NextBlob reads. */
  lemma NextBlobSkip(p: seq<byte>, size: nat)
    requires size > 0 && RecordStart in p
    ensures NextBlob(p, size) == NextBlob(p[FirstIndex(p, RecordStart)..], size)
  {
    var k := FirstIndex(p, RecordStart);
    FirstIndexFound(p, RecordStart);
    FirstIndexHead(p[k..], RecordStart);
    assert p[k..][0..] == p[k..];
  }

  /** NextBlob when no ETX follows the STX within one buffer's length. */
  lemma NextBlobUnterminated(p: seq<byte>, size: nat, k: nat)
    requires size > 0 && k < |p| && FirstIndex(p, RecordStart) == k
    requires var e := FirstIndex(p[k..], RecordEnd); !(e < |p| - k && e < size)
    ensures NextBlob(p, size) == BlobStep(Err(InvalidOperation), p[k..])
  {
  }

  /** NextBlob when the record start and end have been located. */
  lemma NextBlobFound(p: seq<byte>, size: nat, k: nat, e: nat)
    requires size > 0 && k < |p| && FirstIndex(p, RecordStart) == k
    requires e < |p| - k && e < size && FirstIndex(p[k..], RecordEnd) == e
    ensures 1 <= e && NextBlob(p, size) == BlobStep(Ok(Some(Decode(p[k..][1..e]))), p[k..][e + 1..])
  {
  }

  /** Filler without STX, then what Write emitted for ss, reads back as ss and ends without error. */
  lemma {:induction false} ReadAllOfBlobs(f: seq<byte>, ss: seq<string>, size: nat)
    requires RecordStart !in f
    requires forall i :: 0 <= i < |ss| ==> Storable(ss[i], size - 8)
    ensures ReadAllBlobs(f + Blobs(ss), size) == (ss, None)
    decreases |ss|
  {
    if ss == [] {
      assert f + Blobs(ss) == f;
      assert NextBlob(f, size).outcome == Ok(None);
    } else {
      var rest := Blobs(ss[1..]);
      assert f + Blobs(ss) == f + Record(ss[0]) + rest;
      NextBlobOfRecord(f, ss[0], rest, size);
      ReadAllBlobsStep(f + Blobs(ss), size, ss[0], [RecordFiller] + rest);
      ReadAllOfBlobs([RecordFiller], ss[1..], size);
      assert ss == [ss[0]] + ss[1..];
    }
  }

  // ---------------------------------------------------------------- the writer

  /** Writer over a stream; `written` is what the stream has received. */
  class Writer {
    const maxBlobSize: int
    const buffer: array<byte>
    var written: seq<byte>
    ghost var records: seq<string>

    ghost predicate Valid()
      reads this
    {
      buffer.Length == maxBlobSize + 8 && written == Blobs(records)
      && forall i :: 0 <= i < |records| ==> Storable(records[i], maxBlobSize)
    }

    constructor (maxBlobSize: int)
      requires 0 <= maxBlobSize + 8 && maxBlobSize <= MaxBlobSizeLimit
      ensures Valid() && this.maxBlobSize == maxBlobSize && written == [] && records == []
    {
      this.maxBlobSize := maxBlobSize;
      buffer := new byte[maxBlobSize + 8];
      written := [];
      records := [];
    }

    /**
     * Write: a text of more than MaxBlobSize UTF-8 bytes, or holding ETX, is
     * refused with an ArgumentException; otherwise its record is appended.
     */
    method Write(blob: string) returns (r: Result<()>)
      requires Valid()
      modifies this, buffer
      ensures Valid()
      ensures r.Ok? <==> Storable(blob, maxBlobSize)
      ensures r.Err? ==> r.error == ArgumentException && written == old(written) && records == old(records)
      ensures r.Ok? ==> written == old(written) + Record(blob) && records == old(records) + [blob]
    {
      var bytes := Encode(blob);
      var count := |bytes|;
      if count > maxBlobSize {
        return Err(ArgumentException);
      }
      if (RecordEnd as char) in blob {
        return Err(ArgumentException);
      }
      buffer[0] := RecordStart;
      CopyAt(buffer, 1, bytes);
      buffer[count + 1] := RecordEnd;
      buffer[count + 2] := RecordFiller;
      assert buffer[..count + 3] == Record(blob);
      written := written + buffer[..count + 3];
      BlobsSnoc(records, blob);
      records := records + [blob];
      return Ok(());
    }
  }

  /** Encoding.UTF8.GetBytes into a buffer at an offset. */
  method CopyAt(buffer: array<byte>, offset: nat, bytes: seq<byte>)
    requires offset + |bytes| <= buffer.Length
    modifies buffer
    ensures buffer[offset..offset + |bytes|] == bytes
    ensures buffer[..offset] == old(buffer[..offset])
    ensures buffer[offset + |bytes|..] == old(buffer[offset + |bytes|..])
  {
    for i := 0 to |bytes|
      invariant buffer[offset..offset + i] == bytes[..i]
      invariant buffer[..offset] == old(buffer[..offset])
      invariant buffer[offset + |bytes|..] == old(buffer[offset + |bytes|..])
    {
      buffer[offset + i] := bytes[i];
    }
  }

  /**
   * The Writer constructor's checks: a stream that cannot be written and a
   * limit above 0xFFF0 are ArgumentExceptions; a limit below -8 makes the
   * buffer allocation fail.
   */
  method NewWriter(canWrite: bool, maxBlobSize: int) returns (r: Result<Writer>)
    ensures r.Ok? <==> canWrite && -8 <= maxBlobSize <= MaxBlobSizeLimit
    ensures r.Err? && (!canWrite || maxBlobSize > MaxBlobSizeLimit) ==> r.error == ArgumentException
    ensures r.Err? && canWrite && maxBlobSize < -8 ==> r.error == OverflowException
    ensures r.Ok? ==> fresh(r.value) && r.value.Valid() && r.value.maxBlobSize == maxBlobSize && r.value.written == []
  {
    if !canWrite || maxBlobSize > MaxBlobSizeLimit {
      return Err(ArgumentException);
    }
    if maxBlobSize + 8 < 0 {
      return Err(OverflowException);
    }
    var w := new Writer(maxBlobSize);
    return Ok(w);
  }

  /** Whatever a writer wrote reads back, through a reader with at least its limit, as the texts it accepted. */
  lemma WriterReadsBack(w: Writer, readerLimit: int)
    requires w.Valid() && w.maxBlobSize <= readerLimit
    ensures ReadAllBlobs(w.written, readerLimit + 8) == (w.records, None)
  {
    ReadAllOfBlobs([], w.records, readerLimit + 8);
    assert [] + Blobs(w.records) == Blobs(w.records);
  }

  // ---------------------------------------------------------------- the reader

  /**
   * Reader over a stream that still holds `input`; the bytes
   * buffer[readPtr..tail] have been read from it but not consumed.
   */
  class Reader {
    const buffer: array<byte>
    var tail: int
    var readPtr: int
    var input: seq<byte>
    /** The most bytes the stream delivers per read. */
    const readLimit: nat

    ghost predicate Valid()
      reads this
    {
      0 <= readPtr <= tail <= buffer.Length && readLimit > 0
    }

    /** The bytes still to be read: the unconsumed part of the buffer, then the stream. */
    ghost function Pending(): seq<byte>
      reads this, buffer
      requires Valid()
    {
      buffer[readPtr..tail] + input
    }

    constructor (input: seq<byte>, maxBlobSize: Int32, readLimit: nat)
      requires 0 <= ToInt32(maxBlobSize + 8) && readLimit > 0
      ensures Valid() && Pending() == input && tail == 0 && buffer.Length == ToInt32(maxBlobSize + 8)
      ensures this.readLimit == readLimit
      ensures buffer.Length > 0 && |input| > 0 && input[0] == RecordStart ==> StartInReach()
      ensures fresh(buffer)
    {
      buffer := new byte[ToInt32(maxBlobSize + 8)];
      tail, readPtr := 0, 0;
      this.input := input;
      this.readLimit := readLimit;
      new;
      assert buffer[readPtr..tail] == [];
      if buffer.Length > 0 && |input| > 0 {
        assert input[..Min(Min(buffer.Length, |input|), readLimit)][0] == input[0];
      }
    }

    /** Array.Copy of the unread bytes to the front of the buffer. */
    method Compact()
      requires Valid()
      modifies this`readPtr, this`tail, buffer
      ensures Valid() && readPtr == 0 && Pending() == old(Pending())
    {
      var from, n := readPtr, tail - readPtr;
      ghost var w := buffer[from..from + n];
      for i := 0 to n
        invariant buffer[..i] == w[..i]
        invariant buffer[from + i..from + n] == w[i..]
      {
        assert buffer[from + i] == w[i];
        buffer[i] := buffer[from + i];
        assert buffer[..i + 1] == buffer[..i] + [w[i]];
      }
      tail, readPtr := n, 0;
    }

    /** Source.Read into the free end of the buffer: min(free space, available, read limit) bytes. */
    method ReadMore()
      requires Valid()
      modifies this`tail, this`input, buffer
      ensures Valid() && readPtr == old(readPtr) && Pending() == old(Pending())
      ensures tail == old(tail) + Min(Min(buffer.Length - old(tail), |old(input)|), readLimit)
    {
      var source, t := input, tail;
      var k := Min(Min(buffer.Length - t, |source|), readLimit);
      ghost var before := buffer[readPtr..t];
      CopyAt(buffer, t, source[..k]);
      assert buffer[readPtr..t] == before;
      assert buffer[readPtr..t + k] == before + source[..k];
      assert source == source[..k] + source[k..];
      tail, input := t + k, source[k..];
    }

    /**
     * FillBuffer as intended: the unread bytes moved to the front, the rest of
     * the buffer filled from the stream; true when the buffer holds data.
     */
    method FillBuffer() returns (any: bool)
      requires Valid()
      modifies this, buffer
      ensures Valid() && Pending() == old(Pending()) && readPtr == 0
      ensures tail == Min(Min(buffer.Length, |old(Pending())|), old(tail - readPtr) + readLimit)
      ensures any == (tail > 0)
    {
      Compact();
      ReadMore();
      any := tail > 0;
    }

    /**
     * FillBuffer as written: the unread bytes are moved to the front only when
     * there are some, and the result reports whether the tail pointer is past 0,
     * not whether any byte is unread.
     */
    method FillBufferAsWritten() returns (any: bool)
      requires Valid()
      modifies this, buffer
      ensures Valid() && Pending() == old(Pending())
      ensures old(tail > readPtr) ==>
                readPtr == 0 && tail == Min(Min(buffer.Length, |old(Pending())|), old(tail - readPtr) + readLimit)
      ensures old(tail <= readPtr) ==>
                readPtr == old(readPtr)
                && tail == old(tail) + Min(Min(buffer.Length - old(tail), |old(input)|), readLimit)
      ensures any == (tail > 0)
    {
      if tail > readPtr {
        Compact();
      }
      ReadMore();
      any := tail > 0;
    }

    /**
     * MoveToNextRecord as intended: discard bytes before the next STX,
     * refilling as needed; false when the stream holds no further STX.
     */
    method MoveToNextRecord() returns (found: bool)
      requires Valid()
      modifies this, buffer
      ensures Valid()
      ensures buffer.Length == 0 ==> !found && Pending() == old(Pending())
      ensures buffer.Length > 0 ==> (found <==> RecordStart in old(Pending()))
      ensures buffer.Length > 0 && !found ==> Pending() == []
      ensures found ==> readPtr < tail && buffer[readPtr] == RecordStart
                        && Pending() == old(Pending())[FirstIndex(old(Pending()), RecordStart)..]
    {
      ghost var p := Pending();
      ghost var dropped: nat := 0;
      while true
        invariant Valid()
        invariant dropped <= |p| && Pending() == p[dropped..] && RecordStart !in p[..dropped]
        invariant buffer.Length == 0 ==> dropped == 0
        decreases |p| - dropped
      {
        var any := EnsureBuffered();
        if !any {
          if buffer.Length > 0 {
            assert p == p[..dropped];
          }
          return false;
        }
        ghost var w, rest := buffer[readPtr..tail], input;
        found := SkipToStart();
        if found {
          SkipFound(p, dropped, w, rest, |w| - (tail - readPtr));
          return true;
        }
        SkipWindow(p, dropped, w, rest);
        dropped := dropped + |w|;
      }
    }

    /** The refill at the head of the scan loop: only when every buffered byte has been consumed. */
    method EnsureBuffered() returns (any: bool)
      requires Valid()
      modifies this, buffer
      ensures Valid() && Pending() == old(Pending())
      ensures any <==> readPtr < tail
      ensures !any && buffer.Length > 0 ==> Pending() == []
    {
      any := true;
      if tail <= readPtr {
        any := FillBuffer();
      }
    }

    /**
     * The search of the buffered bytes for STX: the read pointer moves to the
     * first STX, or to the tail when there is none.
     */
    method SkipToStart() returns (found: bool)
      requires Valid()
      modifies this`readPtr
      ensures Valid()
      ensures found ==> readPtr < tail && buffer[readPtr] == RecordStart
                        && FirstIndex(old(buffer[readPtr..tail]), RecordStart) == readPtr - old(readPtr)
                        && buffer[readPtr..tail] == old(buffer[readPtr..tail])[readPtr - old(readPtr)..]
      ensures !found ==> readPtr == tail && RecordStart !in old(buffer[readPtr..tail])
    {
      var start := ArrayIndexOf(buffer, RecordStart, readPtr, tail - readPtr);
      if start >= 0 {
        readPtr := start;
        return true;
      }
      FirstIndexFound(buffer[readPtr..tail], RecordStart);
      readPtr := tail;
      return false;
    }

    /**
     * MoveToNextRecord as written: when the buffered bytes hold no STX it
     * discards them and refills, then stores the -1 of the failed search.
     */
    method MoveToNextRecordAsWritten() returns (found: bool)
      requires Valid()
      modifies this, buffer
      ensures !found ==> Valid() && Pending() == old(Pending()) && (buffer.Length > 0 ==> Pending() == [])
      ensures found && readPtr != -1 ==>
                Valid() && readPtr < tail && buffer[readPtr] == RecordStart
                && Pending() == old(Pending())[FirstIndex(old(Pending()), RecordStart)..]
      ensures readPtr == -1 ==> found && tail > 0 && !old(StartInReach())
      ensures old(tail) > 0 && RecordStart !in old(Pending()) ==> readPtr == -1
    {
      ghost var p, t0 := Pending(), tail;
      ghost var reach := StartInReach();
      var any := RefillIfConsumedAsWritten();
      if !any {
        return false;
      }
      ghost var w, rest := buffer[readPtr..tail], input;
      assert reach ==> RecordStart in w;
      found := SkipToStart();
      if found {
        SkipFound(p, 0, w, rest, |w| - (tail - readPtr));
        return true;
      }
      assert !reach && tail > 0;
      any := FillBufferAsWritten();
      if !any {
        assert false;
        return false;
      }
      readPtr := -1;
      return true;
    }

    /**
     * The refill MoveToNextRecordAsWritten makes first when every buffered
     * byte has been read; it reports false only when nothing is buffered.
     */
    method RefillIfConsumedAsWritten() returns (any: bool)
      requires Valid()
      modifies this, buffer
      ensures Valid() && Pending() == old(Pending())
      ensures any ==> tail > 0
      ensures !any ==> old(tail) == 0 && tail == 0 && (buffer.Length > 0 ==> Pending() == [])
      ensures old(StartInReach()) ==> RecordStart in buffer[readPtr..tail]
    {
      ghost var p := Pending();
      ghost var reach := StartInReach();
      if tail <= readPtr {
        ghost var t0, in0 := tail, input;
        any := FillBufferAsWritten();
        if !any {
          return;
        }
        assert buffer[readPtr..tail] == p[..tail - readPtr];
        if reach {
          assert t0 == 0 && readPtr == 0 && p == in0;
          assert buffer[readPtr..tail] == in0[..Min(Min(buffer.Length, |in0|), readLimit)];
        }
      } else {
        any := true;
      }
    }

    /**
     * The next record start is already buffered, or the buffer is empty at
     * position 0 and the first refill brings one: the cases in which the
     * reader as written behaves as intended.
     */
    ghost predicate StartInReach()
      reads this, buffer
    {
      Valid()
      && ((readPtr < tail && RecordStart in buffer[readPtr..tail])
          || (tail == 0 && RecordStart in input[..Min(Min(buffer.Length, |input|), readLimit)]))
    }

    /**
     * FindRecordEnd: the read pointer must be at an STX in the buffer; the
     * position of the next ETX, after one refill if it is not yet buffered.
     * The ETX is found when it lies within the buffer's length of the STX and
     * within what is buffered after that one refill.
     */
    method FindRecordEnd() returns (r: Result<int>)
      requires Valid()
      modifies this, buffer
      ensures Valid() && Pending() == old(Pending())
      ensures r.Err? ==> r.error == InvalidOperation
      ensures var q := old(Pending()); var e := FirstIndex(q, RecordEnd);
              r.Ok? <==> old(readPtr < tail && buffer[readPtr] == RecordStart) && e < |q| && e < buffer.Length
                         && e < old(tail - readPtr) + readLimit
      ensures r.Ok? ==> readPtr < r.value < tail && r.value - readPtr == FirstIndex(old(Pending()), RecordEnd)
    {
      if tail <= readPtr {
        return Err(InvalidOperation);
      }
      if buffer[readPtr] != RecordStart {
        return Err(InvalidOperation);
      }
      var end := SearchEnd();
      if end >= 0 {
        return Ok(end);
      }
      var any := FillBuffer();
      end := SearchEnd();
      if end < 0 {
        return Err(InvalidOperation);
      }
      return Ok(end);
    }

    /** Array.IndexOf of ETX over the buffered bytes, related to the first ETX of all unread bytes. */
    method SearchEnd() returns (end: int)
      requires Valid()
      ensures -1 <= end < tail
      ensures end >= 0 ==> readPtr <= end && end - readPtr == FirstIndex(Pending(), RecordEnd)
      ensures end < 0 ==> FirstIndex(Pending(), RecordEnd) >= tail - readPtr
    {
      end := ArrayIndexOf(buffer, RecordEnd, readPtr, tail - readPtr);
      ghost var w := buffer[readPtr..tail];
      if end >= 0 {
        FirstIndexFound(w, RecordEnd);
        FirstIndexPrefix(w, input, RecordEnd);
      } else {
        WindowWithoutEnd(Pending(), w, input);
      }
    }

    /** TryRead as intended: one step of NextBlob over the unread bytes, unless a short read cuts a record. */
    method TryReadIntended() returns (r: Result<Option<string>>)
      requires Valid()
      modifies this, buffer
      ensures Valid()
      ensures ReadOutcome(r, Pending(), old(Pending()), buffer.Length, readLimit)
      ensures readLimit >= buffer.Length ==> BlobStep(r, Pending()) == NextBlob(old(Pending()), buffer.Length)
    {
      ghost var p := Pending();
      var found := MoveToNextRecord();
      FirstIndexFound(p, RecordStart);
      if !found {
        NextBlobEnd(p, buffer.Length);
        return Ok(None);
      }
      NextBlobSkip(p, buffer.Length);
      r := ReadStartedRecord();
    }

    /** The read of a record whose STX is at the read pointer: FindRecordEnd, then the text up to the ETX. */
    method ReadStartedRecord() returns (r: Result<Option<string>>)
      requires Valid() && readPtr < tail && buffer[readPtr] == RecordStart
      modifies this, buffer
      ensures Valid() && ReadOutcome(r, Pending(), old(Pending()), buffer.Length, readLimit)
      ensures r.Ok? ==> tail > 0
    {
      ghost var q := Pending();
      FirstIndexHead(q, RecordStart);
      assert q[0..] == q;
      var end := FindRecordEnd();
      if end.Err? {
        var e := FirstIndex(q, RecordEnd);
        if e < |q| && e < buffer.Length {
          // Only a short refill leaves an ETX within reach unbuffered.
          NextBlobFound(q, buffer.Length, 0, e);
        } else {
          NextBlobUnterminated(q, buffer.Length, 0);
        }
        return Err(end.error);
      }
      NextBlobFound(q, buffer.Length, 0, end.value - readPtr);
      r := TakeBlob(end.value);
    }

    /** The text between the STX at the read pointer and the ETX at end; the read pointer moves past the ETX. */
    method TakeBlob(end: int) returns (r: Result<Option<string>>)
      requires Valid() && readPtr < end < tail
      modifies this`readPtr
      ensures Valid()
      ensures var q, e := old(Pending()), end - old(readPtr);
              r == Ok(Some(Decode(q[1..e]))) && Pending() == q[e + 1..]
    {
      ghost var w := buffer[readPtr..tail];
      ghost var q := Pending();
      TakeRecord(q, w, input, end - readPtr);
      assert w[1..end - readPtr] == buffer[readPtr + 1..end];
      assert q[1..end - readPtr] == buffer[readPtr + 1..end];
      var blob := Decode(buffer[readPtr + 1..end]);
      readPtr := end + 1;
      return Ok(Some(blob));
    }

    /**
     * TryRead as written. When the reader has buffered data (its tail pointer
     * is past 0) and no STX is left, the scan leaves -1 in the read pointer and
     * FindRecordEnd indexes the buffer there: an IndexOutOfRangeException where
     * null was intended. When the next STX is in reach it reads as intended.
     */
    method TryReadAsWritten() returns (r: Result<Option<string>>)
      requires Valid()
      modifies this, buffer
      ensures r != Err(IndexOutOfRange) ==> Valid() && ReadOutcome(r, Pending(), old(Pending()), buffer.Length, readLimit)
      ensures r != Err(IndexOutOfRange) && readLimit >= buffer.Length ==>
                BlobStep(r, Pending()) == NextBlob(old(Pending()), buffer.Length)
      ensures r == Err(IndexOutOfRange) ==> readPtr == -1 && !old(StartInReach())
      ensures old(tail) > 0 && RecordStart !in old(Pending()) ==> r == Err(IndexOutOfRange)
      ensures r.Ok? && r.value.Some? ==> tail > 0
    {
      ghost var p := Pending();
      var found := MoveToNextRecordAsWritten();
      FirstIndexFound(p, RecordStart);
      if !found {
        NextBlobEnd(p, buffer.Length);
        return Ok(None);
      }
      if readPtr == -1 {
        // FindRecordEnd reads the buffer at the read pointer.
        return Err(IndexOutOfRange);
      }
      NextBlobSkip(p, buffer.Length);
      r := ReadStartedRecord();
    }

    /**
     * ReadAll: TryRead until it yields null. The source enumerates lazily;
     * here the records are collected, with the exception that stopped the
     * enumeration, if any. With full reads this is ReadAllBlobs; a short read
     * can only stop it early, with an InvalidOperationException.
     */
    method ReadAllIntended() returns (records: seq<string>, failure: Option<Exception>)
      requires Valid()
      modifies this, buffer
      ensures Valid()
      ensures readLimit >= buffer.Length ==> (records, failure) == ReadAllBlobs(old(Pending()), buffer.Length)
      ensures (records, failure) == ReadAllBlobs(old(Pending()), buffer.Length)
              || (failure == Some(InvalidOperation) && records < ReadAllBlobs(old(Pending()), buffer.Length).0)
    {
      records, failure := [], None;
      assert [] + ReadAllBlobs(Pending(), buffer.Length).0 == ReadAllBlobs(Pending(), buffer.Length).0;
      while true
        invariant Valid()
        invariant (records + ReadAllBlobs(Pending(), buffer.Length).0, ReadAllBlobs(Pending(), buffer.Length).1)
                  == ReadAllBlobs(old(Pending()), buffer.Length)
        decreases |Pending()|
      {
        ghost var before := Pending();
        var r := TryReadIntended();
        if r.Err? {
          ShortReadStops(records, before, buffer.Length, r, Pending(), readLimit);
          return records, Some(r.error);
        }
        if r.value.None? {
          assert ReadAllBlobs(before, buffer.Length) == ([], None);
          assert records + [] == records;
          return records, None;
        }
        var more := ReadAllBlobs(Pending(), buffer.Length).0;
        ReadAllBlobsStep(before, buffer.Length, r.value.value, Pending());
        SeqAssoc(records, [r.value.value], more);
        records := records + [r.value.value];
      }
    }

    /**
     * ReadAll over TryReadAsWritten: the records read are the first ones of
     * ReadAllBlobs, and once a record has been read the enumeration never
     * ends cleanly; it stops with an IndexOutOfRangeException where the end
     * was intended.
     */
    method ReadAllAsWritten() returns (records: seq<string>, failure: Option<Exception>)
      requires Valid()
      modifies this, buffer
      ensures records <= ReadAllBlobs(old(Pending()), buffer.Length).0
      ensures failure != Some(IndexOutOfRange) && readLimit >= buffer.Length ==>
                (records, failure) == ReadAllBlobs(old(Pending()), buffer.Length)
      ensures failure != Some(IndexOutOfRange) ==>
                (records, failure) == ReadAllBlobs(old(Pending()), buffer.Length)
                || (failure == Some(InvalidOperation) && records < ReadAllBlobs(old(Pending()), buffer.Length).0)
      ensures |records| > 0 ==> failure.Some?
      ensures (old(StartInReach()) && readLimit >= buffer.Length
               && NextBlob(old(Pending()), buffer.Length).outcome.Ok?
               && NextBlob(old(Pending()), buffer.Length).outcome.value.Some?) ==> |records| > 0
    {
      records, failure := [], None;
      ghost var p0, inReach := Pending(), StartInReach();
      assert [] + ReadAllBlobs(Pending(), buffer.Length).0 == ReadAllBlobs(Pending(), buffer.Length).0;
      while true
        invariant Valid()
        invariant ReadSoFar(records, Pending(), p0, buffer.Length)
        invariant records != [] ==> tail > 0
        invariant records == [] ==> Pending() == p0 && (inReach ==> StartInReach())
        decreases |Pending()|
      {
        ghost var before := Pending();
        ghost var reachBefore := StartInReach();
        var r := TryReadAsWritten();
        if r == Err(IndexOutOfRange) {
          AsWrittenOutOfRange(records, before, p0, buffer.Length, readLimit, inReach, reachBefore);
          return records, Some(r.error);
        }
        if r.Err? {
          AsWrittenFails(records, before, p0, buffer.Length, readLimit, inReach, r, Pending());
          return records, Some(r.error);
        }
        if r.value.None? {
          AsWrittenEnds(records, before, p0, buffer.Length, readLimit, inReach, Pending());
          return records, None;
        }
        var more := ReadAllBlobs(Pending(), buffer.Length).0;
        ReadAllBlobsStep(before, buffer.Length, r.value.value, Pending());
        SeqAssoc(records, [r.value.value], more);
        records := records + [r.value.value];
      }
    }
  }

  /** What ReadAllAsWritten promises of the records it read and the exception that stopped it. */
  ghost predicate AsWrittenResult(records: seq<string>, failure: Option<Exception>, p0: seq<byte>, size: nat,
                                  limit: nat, inReach: bool)
  {
    var all := ReadAllBlobs(p0, size);
    && records <= all.0
    && (failure != Some(IndexOutOfRange) && limit >= size ==> (records, failure) == all)
    && (failure != Some(IndexOutOfRange) ==>
          (records, failure) == all || (failure == Some(InvalidOperation) && records < all.0))
    && (|records| > 0 ==> failure.Some?)
    && (inReach && limit >= size && NextBlob(p0, size).outcome.Ok? && NextBlob(p0, size).outcome.value.Some?
        ==> |records| > 0)
  }

  /** The records read so far followed by what is still to be read make up everything there is to read. */
  ghost predicate ReadSoFar(records: seq<string>, before: seq<byte>, p0: seq<byte>, size: nat)
  {
    (records + ReadAllBlobs(before, size).0, ReadAllBlobs(before, size).1) == ReadAllBlobs(p0, size)
  }

  /** The IndexOutOfRangeException of the as-written scan comes only once a record has been read. */
  lemma AsWrittenOutOfRange(records: seq<string>, before: seq<byte>, p0: seq<byte>, size: nat, limit: nat,
                            inReach: bool, reachBefore: bool)
    requires ReadSoFar(records, before, p0, size)
    requires records == [] ==> before == p0 && (inReach ==> reachBefore)
    requires !reachBefore
    ensures AsWrittenResult(records, Some(IndexOutOfRange), p0, size, limit, inReach)
  {
    assert records <= records + ReadAllBlobs(before, size).0;
  }

  /** A read that fails ends the enumeration with what ShortReadStops allows. */
  lemma AsWrittenFails(records: seq<string>, before: seq<byte>, p0: seq<byte>, size: nat, limit: nat,
                       inReach: bool, r: Result<Option<string>>, after: seq<byte>)
    requires ReadSoFar(records, before, p0, size)
    requires records == [] ==> before == p0
    requires r.Err? && r != Err(IndexOutOfRange) && ReadOutcome(r, after, before, size, limit)
    requires limit >= size ==> BlobStep(r, after) == NextBlob(before, size)
    ensures AsWrittenResult(records, Some(r.error), p0, size, limit, inReach)
  {
    ShortReadStops(records, before, size, r, after, limit);
    assert records <= records + ReadAllBlobs(before, size).0;
  }

  /** The end of the stream can be reached cleanly only before any record is read. */
  lemma AsWrittenEnds(records: seq<string>, before: seq<byte>, p0: seq<byte>, size: nat, limit: nat,
                      inReach: bool, after: seq<byte>)
    requires ReadSoFar(records, before, p0, size)
    requires records == [] ==> before == p0
    requires ReadOutcome(Ok(None), after, before, size, limit)
    requires records != [] ==> size > 0 && RecordStart in before
    ensures AsWrittenResult(records, None, p0, size, limit, inReach)
  {
    FirstIndexFound(before, RecordStart);
    assert ReadAllBlobs(before, size) == ([], None);
    assert records + [] == records;
  }

  /**
   * A read that ended in an exception: either the one ReadAllBlobs ends
   * with, or a short read's InvalidOperationException cutting the records
   * short by at least one.
   */
  lemma ShortReadStops(records: seq<string>, before: seq<byte>, size: nat, r: Result<Option<string>>,
                       after: seq<byte>, limit: nat)
    requires r.Err? && ReadOutcome(r, after, before, size, limit)
    ensures var all := ReadAllBlobs(before, size);
      (records + all.0, all.1) == (records, Some(r.error))
      || (r.error == InvalidOperation && limit < size && records < records + all.0)
  {
    var step := NextBlob(before, size);
    if BlobStep(r, after) == step {
      assert records + [] == records;
    } else {
      ReadAllBlobsStep(before, size, step.outcome.value.value, step.rest);
      var all := ReadAllBlobs(before, size).0;
      assert |all| > 0 && records + all == records + all;
      assert (records + all)[..|records|] == records;
    }
  }

  /**
   * The Reader constructor: the buffer holds maxBlobSize + 8 bytes, a sum
   * computed in 32-bit arithmetic; a negative length makes the allocation
   * throw an OverflowException.
   */
  method NewReader(input: seq<byte>, maxBlobSize: Int32, readLimit: nat) returns (r: Result<Reader>)
    requires readLimit > 0
    ensures r.Ok? <==> 0 <= ToInt32(maxBlobSize + 8)
    ensures r.Ok? <==> -8 <= maxBlobSize <= Int32Max - 8
    ensures r.Err? ==> r.error == OverflowException
    ensures r.Ok? ==> fresh(r.value) && r.value.Valid() && r.value.Pending() == input
                      && r.value.buffer.Length == maxBlobSize + 8
  {
    var size := maxBlobSize + 8;
    assert IsInt32(maxBlobSize);
    if size > Int32Max {
      // The sum wraps around to a negative length.
      ToInt32Congruent(size, size - 0x1_0000_0000);
      assert ToInt32(size - 0x1_0000_0000) == size - 0x1_0000_0000;
    } else {
      assert ToInt32(size) == size;
    }
    if ToInt32(maxBlobSize + 8) < 0 {
      return Err(OverflowException);
    }
    var reader := new Reader(input, maxBlobSize, readLimit);
    return Ok(reader);
  }

  /**
   * The reader as written over what a writer wrote, through full reads: the
   * first text comes back, every text read is one the writer wrote, in
   * order, and the enumeration ends in an IndexOutOfRangeException instead
   * of the end of the stream.
   */
  method ReadBackAsWritten(ss: seq<string>, maxBlobSize: Int32, readLimit: nat)
    returns (records: seq<string>, failure: Option<Exception>)
    requires ss != [] && 0 <= maxBlobSize <= MaxBlobSizeLimit && maxBlobSize + 8 <= readLimit
    requires forall i :: 0 <= i < |ss| ==> Storable(ss[i], maxBlobSize)
    ensures |records| > 0 && records[0] == ss[0] && records <= ss
    ensures failure == Some(IndexOutOfRange)
  {
    var input := Blobs(ss);
    BlobsReadBack(ss, maxBlobSize + 8);
    var reader := new Reader(input, maxBlobSize, readLimit);
    assert reader.buffer.Length == maxBlobSize + 8;
    records, failure := reader.ReadAllAsWritten();
    assert records <= ss;
    assert |records| > 0;
    assert failure.Some?;
  }

  /** What a writer wrote starts with an STX, and its first read yields the first text. */
  lemma BlobsReadBack(ss: seq<string>, size: nat)
    requires ss != [] && forall i :: 0 <= i < |ss| ==> Storable(ss[i], size - 8)
    ensures |Blobs(ss)| > 0 && Blobs(ss)[0] == RecordStart
    ensures ReadAllBlobs(Blobs(ss), size) == (ss, None)
    ensures NextBlob(Blobs(ss), size).outcome == Ok(Some(ss[0]))
  {
    var input, first, rest := Blobs(ss), Record(ss[0]), Blobs(ss[1..]);
    ReadAllOfBlobs([], ss, size);
    assert [] + input == input;
    assert input == first + rest;
    assert [] + first == first;
    NextBlobOfRecord([], ss[0], rest, size);
  }

  /** The stream holding the single text "a": NextBlob yields it, then the end. */
  lemma OneRecordSteps(size: nat)
    requires size >= 9
    ensures NextBlob(Record("a"), size) == BlobStep(Ok(Some("a")), [RecordFiller])
    ensures NextBlob([RecordFiller], size) == BlobStep(Ok(None), [])
    ensures |Record("a")| > 0 && Record("a")[0] == RecordStart
  {
    assert Record("a") == [RecordStart, 'a' as int, RecordEnd, RecordFiller];
    assert ByteCount("a") == 1;
    NextBlobOfRecord([], "a", [], size);
    assert [] + Record("a") + [] == Record("a");
  }

  /**
   * The reader as written on a stream holding the single text "a": the first
   * read yields it, the second fails with IndexOutOfRangeException instead of
   * yielding null.
   */
  method OneRecordAsWritten() returns (first: Result<Option<string>>, second: Result<Option<string>>)
    ensures first == Ok(Some("a")) && second == Err(IndexOutOfRange)
  {
    OneRecordSteps(DefaultMaxBlobSize + 8);
    var reader := new Reader(Record("a"), DefaultMaxBlobSize, DefaultMaxBlobSize + 8);
    assert reader.buffer.Length == DefaultMaxBlobSize + 8;
    first := reader.TryReadAsWritten();
    second := reader.TryReadAsWritten();
  }

  /** The reader as intended on the same stream: "a", then null. */
  method OneRecord() returns (first: Result<Option<string>>, second: Result<Option<string>>)
    ensures first == Ok(Some("a")) && second == Ok(None)
  {
    OneRecordSteps(DefaultMaxBlobSize + 8);
    var reader := new Reader(Record("a"), DefaultMaxBlobSize, DefaultMaxBlobSize + 8);
    assert reader.buffer.Length == DefaultMaxBlobSize + 8;
    first := reader.TryReadIntended();
    second := reader.TryReadIntended();
  }

  /**
   * A short read cutting a record: through reads of two bytes, the record
   * of "abc" (STX a b c ETX LF) is buffered only as far as "STX a b c" after
   * the one refill, and FindRecordEnd reports it unterminated.
   */
  method ShortReadCutsRecord() returns (r: Result<int>)
    ensures r == Err(InvalidOperation)
  {
    var input := Record("abc");
    AbcLayout();
    var reader := new Reader(input, DefaultMaxBlobSize, 2);
    reader.ReadMore();
    assert reader.tail == 2 && reader.readPtr == 0 && reader.Pending() == input;
    assert reader.buffer[0..2] + reader.input == input;
    assert reader.buffer[0] == RecordStart;
    r := reader.FindRecordEnd();
    assert !r.Ok?;
  }

  /** The record of "abc": STX, three letters, ETX at position 4, LF. */
  lemma AbcLayout()
    ensures Record("abc") == [RecordStart, 'a' as int, 'b' as int, 'c' as int, RecordEnd, RecordFiller]
    ensures FirstIndex(Record("abc"), RecordEnd) == 4
  {
    var input := Record("abc");
    assert input == [RecordStart, 'a' as int, 'b' as int, 'c' as int, RecordEnd, RecordFiller];
    assert input[4] == RecordEnd;
    FirstIndexFound(input, RecordEnd);
  }

  // ---------------------------------------------------------------- scanning steps

  /** An STX found in the buffered window is the next STX of the unread bytes. */
  lemma SkipFound(p: seq<byte>, dropped: nat, w: seq<byte>, rest: seq<byte>, k: nat)
    requires dropped <= |p| && p[dropped..] == w + rest && RecordStart !in p[..dropped]
    requires k < |w| && FirstIndex(w, RecordStart) == k
    ensures (w + rest)[k..] == w[k..] + rest
    ensures FirstIndex(p, RecordStart) < |p| && p[FirstIndex(p, RecordStart)..] == w[k..] + rest
  {
    FirstIndexPrefix(w, rest, RecordStart);
    FirstIndexSkip(p, dropped, RecordStart);
  }

  /** A window without STX may be dropped: the unread bytes shrink, and no STX is skipped. */
  lemma SkipWindow(p: seq<byte>, dropped: nat, w: seq<byte>, rest: seq<byte>)
    requires dropped <= |p| && p[dropped..] == w + rest && RecordStart !in p[..dropped]
    requires RecordStart !in w
    ensures p[dropped + |w|..] == rest && RecordStart !in p[..dropped + |w|]
  {
    assert p[dropped..dropped + |w|] == w;
    assert p[..dropped + |w|] == p[..dropped] + p[dropped..dropped + |w|];
  }

  /** An ETX not in the window lies beyond it. */
  lemma WindowWithoutEnd(q: seq<byte>, w: seq<byte>, rest: seq<byte>)
    requires q == w + rest && FirstIndex(w, RecordEnd) == |w|
    ensures FirstIndex(q, RecordEnd) >= |w|
  {
    FirstIndexSkip(q, |w|, RecordEnd);
  }

  /** Consuming a record through its ETX leaves the bytes after the ETX. */
  lemma TakeRecord(q: seq<byte>, w: seq<byte>, rest: seq<byte>, e: nat)
    requires q == w + rest && 1 <= e < |w|
    ensures q[e + 1..] == w[e + 1..] + rest && q[1..e] == w[1..e]
  {
  }
}
