/*
 * The "tlob" record file format (Lcl.EventLog/Utilities/TlobWriter.cs and
 * TlobReader.cs): each text record is an 8-byte header holding its UTF-8
 * byte count as six zero-padded ASCII digits and CR LF, followed by that
 * many UTF-8 bytes.
 *
 * A stream is a sequence of bytes: the writer appends to `written`, the
 * reader consumes `input`. A read of n bytes delivers min(n, available,
 * limit) bytes, where the limit (at least 1) is the most the stream hands
 * out per call: a file stream delivers all that was asked for, a
 * decompressing or network stream may deliver less. The reader does not
 * repeat a short read, so the records read back as written only when the
 * limit covers the header and every payload.
 */
module Tlob {
  import opened Common
  import opened Utf8

  /** The largest payload the six header digits can describe. */
  const MaxTlobSize: nat := 999999
  /** The size both classes give their payload buffer at construction. */
  const InitialBlobCapacity: nat := 0x8000
  const CR: byte := 13
  const LF: byte := 10

  predicate IsDigitByte(b: byte) { '0' as int <= b <= '9' as int }

  /** Six ASCII digits, then CR LF. */
  predicate ValidHeader(h: seq<byte>)
  {
    |h| == 8 && (forall i :: 0 <= i < 6 ==> IsDigitByte(h[i])) && h[6] == CR && h[7] == LF
  }

  /** Digit characters are encoded as their own single-byte codes. */
  lemma {:induction false} EncodeDigits(s: string)
    requires AllDigits(s)
    ensures |Encode(s)| == |s|
    ensures forall i :: 0 <= i < |s| ==> Encode(s)[i] == s[i] as int
  {
    if s != [] {
      EncodeDigits(s[1..]);
      assert Encode(s) == [s[0] as int] + Encode(s[1..]);
    }
  }

  /** Digit bytes decode one character each, to the digit they code. */
  lemma {:induction false} DecodeDigits(b: seq<byte>)
    requires forall i :: 0 <= i < |b| ==> IsDigitByte(b[i])
    ensures |Decode(b)| == |b| && AllDigits(Decode(b))
    ensures forall i :: 0 <= i < |b| ==> Decode(b)[i] as int == b[i]
  {
    if b != [] {
      DecodeDigits(b[1..]);
      assert Decode(b) == [b[0] as char] + Decode(b[1..]);
    }
  }

  /** The record size a valid header declares: GetString of the six digits, then Int32.Parse. */
  function DeclaredSize(h: seq<byte>): (n: nat)
    requires ValidHeader(h)
    ensures n <= MaxTlobSize
  {
    DecodeDigits(h[..6]);
    var text := Decode(h[..6]);
    DecimalValueBound(text);
    assert Pow10(6) == 1000000;
    DecimalValue(text)
  }

  /** The header WriteTlob emits for a payload of n bytes: n.ToString("D6") in UTF-8, CR, LF. */
  function Header(n: nat): (h: seq<byte>)
    requires n <= MaxTlobSize
    ensures |h| == 8
  {
    assert Pow10(6) == 1000000;
    PadDecimalFixed(n, 6);
    EncodeDigits(PadDecimal(n, 6));
    Encode(PadDecimal(n, 6)) + [CR, LF]
  }

  /** The header is well formed and declares exactly the size it was written for. */
  lemma HeaderReadsBack(n: nat)
    requires n <= MaxTlobSize
    ensures ValidHeader(Header(n)) && DeclaredSize(Header(n)) == n
  {
    assert Pow10(6) == 1000000;
    PadDecimalFixed(n, 6);
    var p := PadDecimal(n, 6);
    EncodeDigits(p);
    var h := Header(n);
    assert h[..6] == Encode(p);
    DecodeEncode(p);
  }

  /** A text whose UTF-8 form fits in one record. */
  predicate Fits(s: string) { ByteCount(s) <= MaxTlobSize }

  predicate AllFit(ss: seq<string>) { forall i :: 0 <= i < |ss| ==> Fits(ss[i]) }

  /** The bytes one WriteTlob call appends to the stream. */
  function Frame(s: string): (f: seq<byte>)
    requires Fits(s)
    ensures |f| == 8 + ByteCount(s)
  {
    Header(ByteCount(s)) + Encode(s)
  }

  /** The bytes a sequence of WriteTlob calls appends, first record first. */
  function Frames(ss: seq<string>): seq<byte>
    requires AllFit(ss)
  {
    if ss == [] then [] else Frame(ss[0]) + Frames(ss[1..])
  }

  lemma {:induction false} FramesSnoc(ss: seq<string>, s: string)
    requires AllFit(ss) && Fits(s)
    ensures AllFit(ss + [s]) && Frames(ss + [s]) == Frames(ss) + Frame(s)
  {
    if ss == [] {
      assert [] + [s] == [s];
    } else {
      assert (ss + [s])[1..] == ss[1..] + [s];
      FramesSnoc(ss[1..], s);
      SeqAssoc(Frame(ss[0]), Frames(ss[1..]), Frame(s));
    }
  }

  /** What one TryRead call yields, and the bytes left in the stream after it. */
  datatype ReadStep = ReadStep(outcome: Result<Option<string>>, rest: seq<byte>)

  /** The bytes one Stream.Read call delivers when count are asked for. */
  function Delivered(count: nat, available: nat, limit: nat): nat
  {
    Min(Min(count, available), limit)
  }

  /**
   * TryRead on a stream holding `input` that hands out at most `limit`
   * bytes per read: null at the end of the stream; an IOException when the
   * header read delivers fewer than 8 bytes, for a non-digit among the first
   * six bytes (a distinct one when the stream starts with the GZip magic
   * bytes 1F 8B), for a header not ending in CR LF, or when the payload read
   * delivers fewer bytes than declared; otherwise the decoded payload.
   */
  function ReadRecord(input: seq<byte>, limit: nat): (r: ReadStep)
    requires limit > 0
    ensures r.outcome == Ok(None) <==> input == []
    ensures r.outcome.Ok? && r.outcome.value.Some? ==>
              |input| >= 8 && ValidHeader(input[..8]) && |input| == 8 + DeclaredSize(input[..8]) + |r.rest|
              && r.rest == input[8 + DeclaredSize(input[..8])..] && DeclaredSize(input[..8]) <= limit
    ensures 0 < |input| < 8 ==> r.outcome == Err(IOException(TruncatedHeader))
    ensures 0 < |input| && limit < 8 ==> r.outcome == Err(IOException(TruncatedHeader))
    ensures |input| >= 8 && limit >= 8 && input[0] == 0x1F && input[1] == 0x8B ==>
              r.outcome == Err(IOException(CompressedInput))
  {
    var nHeader := Delivered(8, |input|, limit);
    if nHeader == 0 then ReadStep(Ok(None), [])
    else if nHeader != 8 then ReadStep(Err(IOException(TruncatedHeader)), input[nHeader..])
    else
      var h, after := input[..8], input[8..];
      if !forall i :: 0 <= i < 6 ==> IsDigitByte(h[i]) then
        var cause := if h[0] == 0x1F && h[1] == 0x8B then CompressedInput else BadHeaderDigit;
        ReadStep(Err(IOException(cause)), after)
      else if h[6] != CR || h[7] != LF then
        ReadStep(Err(IOException(BadHeaderEnd)), after)
      else
        var size := DeclaredSize(h);
        var nBlob := Delivered(size, |after|, limit);
        if nBlob != size then ReadStep(Err(IOException(TruncatedPayload)), after[nBlob..])
        else ReadStep(Ok(Some(Decode(after[..size]))), after[size..])
  }


  /** ReadAll: the records up to the end of the stream, and the exception that ended it early, if any. */
  function ReadAllFrom(input: seq<byte>, limit: nat): (seq<string>, Option<Exception>)
    requires limit > 0
    decreases |input|
  {
    var step := ReadRecord(input, limit);
    match step.outcome
    case Err(e) => ([], Some(e))
    case Ok(None) => ([], None)
    case Ok(Some(s)) =>
      var (more, failure) := ReadAllFrom(step.rest, limit);
      ([s] + more, failure)
  }

  lemma SplitThree<T>(a: seq<T>, b: seq<T>, c: seq<T>)
    ensures (a + b + c)[..|a|] == a && (a + b + c)[|a|..] == b + c
    ensures (b + c)[..|b|] == b && (b + c)[|b|..] == c
  {
  }

  /** ReadAll after a record has been read: that record, then the rest of the stream's. */
  lemma ReadAllFromRecord(input: seq<byte>, limit: nat, s: string, rest: seq<byte>)
    requires limit > 0 && ReadRecord(input, limit) == ReadStep(Ok(Some(s)), rest)
    ensures ReadAllFrom(input, limit) == ([s] + ReadAllFrom(rest, limit).0, ReadAllFrom(rest, limit).1)
  {
  }

  /** Reads that deliver the header and the payload of s whole. */
  predicate FullReads(s: string, limit: nat) { 8 <= limit && ByteCount(s) <= limit }

  /** A record as TlobWriter frames it reads back as the same text, leaving what follows, when reads are full. */
  lemma ReadWrittenRecord(s: string, rest: seq<byte>, limit: nat)
    requires Fits(s) && FullReads(s, limit)
    ensures ReadRecord(Frame(s) + rest, limit) == ReadStep(Ok(Some(s)), rest)
  {
    var n := ByteCount(s);
    HeaderReadsBack(n);
    SplitThree(Header(n), Encode(s), rest);
    DecodeEncode(s);
  }

  /**
   * A record whose payload is longer than one read delivers is reported
   * truncated, although the stream holds all of it: the reader does not
   * repeat a short read.
   */
  lemma ShortPayloadRead(s: string, rest: seq<byte>, limit: nat)
    requires Fits(s) && 8 <= limit < ByteCount(s)
    ensures ReadRecord(Frame(s) + rest, limit).outcome == Err(IOException(TruncatedPayload))
  {
    var n := ByteCount(s);
    HeaderReadsBack(n);
    SplitThree(Header(n), Encode(s), rest);
  }

  /**
   * Reading back what a sequence of WriteTlob calls wrote yields the same
   * texts, in order, and no error, when every read is full.
   */
  lemma {:induction false} ReadAllWritten(ss: seq<string>, limit: nat)
    requires AllFit(ss) && 8 <= limit && forall i :: 0 <= i < |ss| ==> FullReads(ss[i], limit)
    ensures ReadAllFrom(Frames(ss), limit) == (ss, None)
  {
    if ss != [] {
      var rest := Frames(ss[1..]);
      assert Frames(ss) == Frame(ss[0]) + rest;
      ReadWrittenRecord(ss[0], rest, limit);
      ReadAllFromRecord(Frames(ss), limit, ss[0], rest);
      ReadAllWritten(ss[1..], limit);
      assert ss == [ss[0]] + ss[1..];
    }
  }

  /** Encoding.UTF8.GetBytes into a buffer at offset 0. */
  method CopyBytes(buffer: array<byte>, bytes: seq<byte>)
    requires |bytes| <= buffer.Length
    modifies buffer
    ensures buffer[..|bytes|] == bytes
  {
    for i := 0 to |bytes|
      invariant buffer[..i] == bytes[..i]
    {
      buffer[i] := bytes[i];
    }
  }

  /** A writer over a fresh stream; `records` are the texts written so far. */
  class TlobWriter {
    const headerBuffer: array<byte>
    var blobBuffer: array<byte>
    var disposed: bool
    /** The bytes the underlying stream has received. */
    var written: seq<byte>
    /** How often the underlying stream has been disposed. */
    var streamDisposals: nat
    ghost var records: seq<string>

    ghost predicate Valid()
      reads this
    {
      headerBuffer.Length == 8 && blobBuffer.Length >= InitialBlobCapacity && headerBuffer != blobBuffer
      && AllFit(records) && written == Frames(records)
      && streamDisposals == (if disposed then 1 else 0)
    }

    constructor ()
      ensures Valid() && !disposed && written == [] && records == []
      ensures fresh(headerBuffer) && fresh(blobBuffer)
    {
      headerBuffer := new byte[8];
      blobBuffer := new byte[InitialBlobCapacity];
      disposed := false;
      written := [];
      streamDisposals := 0;
      records := [];
    }

    /**
     * WriteTlob: refused after Dispose and for a text of more than 999999
     * UTF-8 bytes, writing nothing; otherwise the header and the payload are
     * appended, after the payload buffer has been grown to hold the payload.
     */
    method WriteTlob(tlob: string) returns (r: Result<()>)
      requires Valid()
      modifies this, headerBuffer, blobBuffer
      ensures Valid() && disposed == old(disposed)
      ensures old(disposed) ==> r == Err(ObjectDisposed)
      ensures !old(disposed) && !Fits(tlob) ==> r == Err(ArgumentException)
      ensures r.Err? ==> written == old(written) && records == old(records)
      ensures r.Ok? <==> !old(disposed) && Fits(tlob)
      ensures r.Ok? ==> written == old(written) + Frame(tlob) && records == old(records) + [tlob]
      ensures r.Ok? ==> blobBuffer.Length >= ByteCount(tlob)
      ensures blobBuffer == old(blobBuffer) || fresh(blobBuffer)
    {
      if disposed {
        return Err(ObjectDisposed);
      }
      var bytes := Encode(tlob);
      var count := |bytes|;
      if count > MaxTlobSize {
        return Err(ArgumentException);
      }
      FramesSnoc(records, tlob);
      if count > blobBuffer.Length {
        blobBuffer := new byte[count + 4096];
      }
      var header, blob := Header(count), blobBuffer;
      CopyBytes(headerBuffer, header);
      CopyBytes(blob, bytes);
      assert headerBuffer[..] == headerBuffer[..8];
      assert headerBuffer[..] + blob[..count] == Frame(tlob);
      written := written + (headerBuffer[..] + blob[..count]);
      records := records + [tlob];
      return Ok(());
    }

    /** Dispose flushes and disposes the stream the first time only. */
    method Dispose()
      requires Valid()
      modifies this
      ensures Valid() && disposed
      ensures written == old(written) && records == old(records)
      ensures streamDisposals == old(streamDisposals) + (if old(disposed) then 0 else 1)
    {
      if !disposed {
        streamDisposals := streamDisposals + 1;
        disposed := true;
      }
    }
  }

  /** Whatever a writer has written reads back as the records it accepted, through a stream whose reads are full. */
  lemma WriterReadsBack(w: TlobWriter, limit: nat)
    requires w.Valid() && MaxTlobSize <= limit
    ensures ReadAllFrom(w.written, limit) == (w.records, None)
  {
    ReadAllWritten(w.records, limit);
  }

  /** A reader over a stream that still holds `input`. */
  class TlobReader {
    const headerBuffer: array<byte>
    var blobBuffer: array<byte>
    var disposed: bool
    /** The bytes the underlying stream has yet to deliver. */
    var input: seq<byte>
    /** The most bytes the underlying stream delivers per read. */
    const readLimit: nat
    var streamDisposals: nat

    ghost predicate Valid()
      reads this
    {
      headerBuffer.Length == 8 && blobBuffer.Length >= InitialBlobCapacity && headerBuffer != blobBuffer
      && streamDisposals == (if disposed then 1 else 0) && readLimit > 0
    }

    constructor (input: seq<byte>, readLimit: nat)
      requires readLimit > 0
      ensures Valid() && !disposed && this.input == input && this.readLimit == readLimit
      ensures fresh(headerBuffer) && fresh(blobBuffer)
    {
      headerBuffer := new byte[8];
      blobBuffer := new byte[InitialBlobCapacity];
      disposed := false;
      this.input := input;
      this.readLimit := readLimit;
      streamDisposals := 0;
    }

    /** Stream.Read(buffer, 0, count): the next min(count, available, limit) bytes. */
    method Read(buffer: array<byte>, count: nat) returns (n: nat)
      requires count <= buffer.Length
      modifies this`input, buffer
      ensures n == Delivered(count, |old(input)|, readLimit)
      ensures buffer[..n] == old(input)[..n] && input == old(input)[n..]
    {
      var source := input;
      n := Delivered(count, |source|, readLimit);
      for i := 0 to n
        invariant buffer[..i] == source[..i]
      {
        buffer[i] := source[i];
      }
      input := source[n..];
    }

    /** TryRead: refused after Dispose, otherwise one step of ReadRecord. */
    method TryRead() returns (r: Result<Option<string>>)
      requires Valid()
      modifies this, headerBuffer, blobBuffer
      ensures Valid() && disposed == old(disposed)
      ensures old(disposed) ==> r == Err(ObjectDisposed) && input == old(input)
      ensures !old(disposed) ==> ReadStep(r, input) == ReadRecord(old(input), readLimit)
      ensures blobBuffer == old(blobBuffer) || fresh(blobBuffer)
    {
      if disposed {
        return Err(ObjectDisposed);
      }
      ghost var start := input;
      var nHeader := Read(headerBuffer, 8);
      if nHeader == 0 {
        return Ok(None);
      }
      if nHeader != 8 {
        return Err(IOException(TruncatedHeader));
      }
      assert headerBuffer[..] == start[..8];
      for i := 0 to 6
        invariant forall j :: 0 <= j < i ==> IsDigitByte(headerBuffer[j])
      {
        if !IsDigitByte(headerBuffer[i]) {
          if headerBuffer[0] == 0x1F && headerBuffer[1] == 0x8B {
            return Err(IOException(CompressedInput));
          }
          return Err(IOException(BadHeaderDigit));
        }
      }
      if headerBuffer[6] != CR || headerBuffer[7] != LF {
        return Err(IOException(BadHeaderEnd));
      }
      var size := DeclaredSize(headerBuffer[..]);
      if size > blobBuffer.Length {
        blobBuffer := new byte[size + 4096];
      }
      var nBlob := Read(blobBuffer, size);
      if nBlob != size {
        return Err(IOException(TruncatedPayload));
      }
      return Ok(Some(Decode(blobBuffer[..size])));
    }

    /**
     * ReadAll: TryRead until it yields null. The source enumerates lazily;
     * here the records read are collected, with the exception that stopped
     * the enumeration, if any.
     */
    method ReadAll() returns (records: seq<string>, failure: Option<Exception>)
      requires Valid()
      modifies this, headerBuffer, blobBuffer
      ensures Valid() && disposed == old(disposed)
      ensures old(disposed) ==> records == [] && failure == Some(ObjectDisposed)
      ensures !old(disposed) ==> (records, failure) == ReadAllFrom(old(input), readLimit)
    {
      records, failure := [], None;
      assert [] + ReadAllFrom(input, readLimit).0 == ReadAllFrom(input, readLimit).0;
      while true
        invariant Valid() && disposed == old(disposed)
        invariant blobBuffer == old(blobBuffer) || fresh(blobBuffer)
        invariant failure == None
        invariant !disposed ==> (records + ReadAllFrom(input, readLimit).0, ReadAllFrom(input, readLimit).1) == ReadAllFrom(old(input), readLimit)
        invariant disposed ==> records == []
        decreases |input|
      {
        ghost var before := input;
        var r := TryRead();
        if r.Err? {
          assert !disposed ==> ReadAllFrom(before, readLimit) == ([], Some(r.error));
          assert records + [] == records;
          failure := Some(r.error);
          return;
        }
        if r.value.None? {
          assert ReadAllFrom(before, readLimit) == ([], None);
          assert records + [] == records;
          return;
        }
        var (more, rest) := ReadAllFrom(input, readLimit);
        ReadAllFromRecord(before, readLimit, r.value.value, input);
        SeqAssoc(records, [r.value.value], more);
        records := records + [r.value.value];
      }
    }

    /** Dispose disposes the stream the first time only. */
    method Dispose()
      requires Valid()
      modifies this
      ensures Valid() && disposed && input == old(input)
      ensures streamDisposals == old(streamDisposals) + (if old(disposed) then 0 else 1)
    {
      if !disposed {
        streamDisposals := streamDisposals + 1;
        disposed := true;
      }
    }
  }
}
