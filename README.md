# Lcl.EventLog core, modelled in Dafny

This project models the in-memory core of Lcl.EventLog, a C# library that copies Windows event-log records into SQLite databases and cuts them into monthly archive files. It proves properties of that model. The modelled parts are:

- **Overlay maps and dimension caches.** `KeyedMap` and `BackedMap` (a front store over a backing store that is never written). The provider, task and operation info caches that assign dense provider ids and backfill descriptions. The V1 trackers behind the import filter `ShouldProcess`.
- **Ingestion.**
  - `EventInsertionLogic`, which turns an event record into a header row.
  - The two import jobs, `EventImportJob` and `EventImportJob2`. Each is a state machine over a transactional store: committed tables plus pending writes.
  - From the database classes: the open guards, the `ReadEventsTicks` filter conditions, the conflict-mode mapping of `PutEvent` and the capped batch loop of `PutEvents`. The SQLite store is abstracted as maps keyed by the tables' unique keys.
- **Archives.** `EventJobConfig` name validation, `JobRegistry`, and `ArchiveInfo` (file names, `Seal`, `FromFileName`, `FindArchives` over a given listing). `ArchiveBuilder.Validate` over a record-id-sorted sequence of headers, an abstract calendar and a set of existing file names. `EventRowStatistics`.
- **Blob codecs.** The "tlob" length-prefixed format (`TlobWriter`/`TlobReader`) and the STX/ETX `TextBlobStore`, both over byte sequences and arrays, with UTF-8 written out.
- **Text conversions.** `TimeUtil` epoch ticks and compact time strings, the two `FixXml` escapers, `AsInteger`/`AsUnsigned`, the field-transform pipeline and the `XmlDissector` prefix rewriting, with XPath evaluation as an abstract function.

Every class whose fields the source updates in place is a Dafny `class`. Its methods state the whole new state. Pure computations are functions, and round trips, invariants and the source's documented promises are lemmas. Where a member of the source is defective, the model keeps it as written (members named `AsWritten`, or the source's own name) next to a corrected `Intended` member. See Findings.

## Model

| member | source | states |
|---|---|---|
| Common.ToInt32 | Lcl.EventLog/Jobs/Database/EventRowStatistics.cs:90-93 | the unchecked 32-bit result is in Int32 range, agrees with the exact value modulo 2^32, and is the exact value when that fits |
| Common.ToInt32Add | Lcl.EventLog/Jobs/Database/EventRowStatistics.cs:93 | wrapping after every addition gives the same as wrapping once at the end |
| Common.Fold | Lcl.EventLog/Jobs/JobRegistry.cs:29-30 | the case-insensitive key has the length of the name and folds each character on its own |
| Common.FoldConcat | Lcl.EventLog/Jobs/JobRegistry.cs:29-30 | folding a concatenation folds each part |
| Common.SplitParts | Lcl.EventLog/Jobs/Archival/ArchiveInfo.cs:191 | the parts of String.Split hold no separator and joined with it give the input back |
| Common.PadDecimalRoundTrip | Lcl.EventLog/Jobs/Archival/ArchiveInfo.cs:100 | a zero-padded decimal reads back as the number |
| Common.TrimPadded | Lcl.EventLog/Utilities/Xml/XmlEventQuery.cs:98 | trimming white space from both ends of a text made of white padding around a core that neither starts nor ends with white space gives the core |
| Utf8.Encode | Lcl.EventLog/Utilities/TextBlobStore.cs:124 | a string takes between one and four UTF-8 bytes per character |
| Utf8.DecodeEncode | Lcl.EventLog/Utilities/TextBlobStore.cs:135-199 | decoding the UTF-8 bytes of a string gives the string back |
| Utf8.DecodeLength | Lcl.EventLog/Utilities/TextBlobStore.cs:199 | Encoding.UTF8.GetString gives at most one character per byte, and a non-empty byte sequence gives a non-empty string |
| Utf8.Decode | Lcl.EventLog/Utilities/TlobReader.cs:129 | Encoding.UTF8.GetString: one character per well-formed sequence and one U+FFFD per maximal malformed part, as DecodeFirstMaximal states of each step |
| Utf8.DecodeFirstMaximal | Lcl.EventLog/Utilities/TextBlobStore.cs:199 | the bytes taken for one character are a well-formed sequence decoded to its character, or else the longest prefix of a well-formed sequence found there (one byte when there is none) replaced by a single U+FFFD, the substitution of maximal subparts of section 3.9 of the Unicode Standard |
| Utf8.DecodeFirstPrefix | Lcl.EventLog/Utilities/TextBlobStore.cs:199 | a prefix of a well-formed sequence is never cut short, and a complete one decodes to its character |
| Utf8.MalformedExamples | Lcl.EventLog/Utilities/TlobReader.cs:129 | E2 82 41 reads as U+FFFD then 'A', a truncated F0 9F 98 as one U+FFFD, two stray continuation bytes as two, and the surrogate bytes ED A0 80 as three |
| Utf8.EncodeAppend | Lcl.EventLog/Utilities/TextBlobStore.cs:124-135 | the UTF-8 bytes of a concatenation are the bytes of each part |
| Utf8.AsciiByteInEncoding | Lcl.EventLog/Utilities/TextBlobStore.cs:124-135 | an ASCII byte occurs in the encoding exactly when its character occurs in the string, so the text of a record never contains its ETX end byte |
| JobConfig.AsWrittenMeansSomeLetter | Lcl.EventLog/Jobs/EventJobConfig.cs:39-43 | the unanchored Regex.IsMatch accepts a name exactly when the name contains an ASCII letter somewhere |
| JobConfig.AsWrittenAcceptsDottedName | Lcl.EventLog/Jobs/EventJobConfig.cs:41-42 | "a.b" passes the unanchored search although the name as a whole does not match the pattern |
| JobConfig.ValidJobNameCharacters | Lcl.EventLog/Jobs/EventJobConfig.cs:41 | a name matched in full is non-empty, starts with a letter, does not end in a separator and holds only letters, digits, '-' and '_', so never '.', '/' or '\\' |
| JobConfig.ValidJobNamePassesSearch | Lcl.EventLog/Jobs/EventJobConfig.cs:39-43 | every name matched in full also passes the unanchored search |
| JobConfig.CheckJobName | Lcl.EventLog/Jobs/EventJobConfig.cs:48-55 | ThrowIfInvalidJobName as written: no error exactly when the search succeeds, that is when the name holds an ASCII letter; otherwise InvalidOperationException |
| JobConfig.CheckJobNameIntended | Lcl.EventLog/Jobs/EventJobConfig.cs:48-55 | the check as intended: no error exactly when the whole name matches; every name it accepts the as-written check accepts too |
| JobConfig.CheckJobNameAcceptsMore | Lcl.EventLog/Jobs/EventJobConfig.cs:41-42 | "1abc" and "a.b" pass the as-written check and fail the intended one |
| JobConfig.NewEventJobConfig | Lcl.EventLog/Jobs/EventJobConfig.cs:25-34 | the constructor keeps name, log and admin as given and fails with InvalidOperationException exactly when the as-written check rejects the name |
| JobConfig.NewEventJobConfigIntended | Lcl.EventLog/Jobs/EventJobConfig.cs:25-34 | the constructor with the intended check: succeeds exactly for names matched in full, and then gives the same record as the as-written constructor |
| JobRegistries.Lookup | Lcl.EventLog/Jobs/JobRegistry.cs:78-103 | TryGetValue on a case-insensitive dictionary: a hit exactly when the folded name is a key, giving the entry stored under it |
| JobRegistries.Registered | Lcl.EventLog/Jobs/JobRegistry.cs:52-68 | Register on the two indexes: InvalidOperationException when the channel's owner has another job name or the job name is bound to another channel; otherwise both indexes get the configuration under its folded names |
| JobRegistries.RegisterAcceptedIff | Lcl.EventLog/Jobs/JobRegistry.cs:39-68 | with consistent indexes, a registration is accepted exactly when every registered configuration sharing its job or channel name, ignoring case, has exactly the same job name and channel name |
| JobRegistries.RegisterKeepsConsistent | Lcl.EventLog/Jobs/JobRegistry.cs:66-67 | an accepted registration keeps the job index and the channel index in agreement |
| JobRegistries.CaseVariantRejected | Lcl.EventLog/Jobs/JobRegistry.cs:55-61 | a job name differing only in case from a registered one is refused, because the conflict checks compare names ordinally |
| JobRegistries.JobRegistry.constructor | Lcl.EventLog/Jobs/JobRegistry.cs:27-32 | a registry for the machine with both indexes empty |
| JobRegistries.JobRegistry.FindByJob | Lcl.EventLog/Jobs/JobRegistry.cs:78-88 | a registered configuration whose job name equals the argument ignoring case, or null when none does |
| JobRegistries.JobRegistry.FindByChannel | Lcl.EventLog/Jobs/JobRegistry.cs:93-103 | a registered configuration whose channel equals the argument ignoring case, or null when none does |
| JobRegistries.JobRegistry.Register | Lcl.EventLog/Jobs/JobRegistry.cs:52-68 | the outcome and the new indexes are those of Registered; on an error both indexes are unchanged |
| JobRegistries.JobRegistry.Clear | Lcl.EventLog/Jobs/JobRegistry.cs:105-109 | both indexes are empty afterwards |
| ArchiveInfos.NormalizeRid | Lcl.EventLog/Jobs/Archival/ArchiveInfo.cs:58-65 | a record-ID bound survives exactly when it is present and at least 1, with its value kept; otherwise it becomes null |
| ArchiveInfos.CheckedFields | Lcl.EventLog/Jobs/Archival/ArchiveInfo.cs:25-75 | the constructor's checks with the job-name check as written: success exactly when the name passes, the year is 2000-2099, the month 1-12 and the normalised bounds are ordered; ArgumentException for the name or the bounds, ArgumentOutOfRangeException for year or month; an empty machine name becomes the local one |
| ArchiveInfos.CheckedFieldsIntended | Lcl.EventLog/Jobs/Archival/ArchiveInfo.cs:35-40 | the same checks with the anchored job-name check: an ill-formed name gives ArgumentException, a well-formed one the same outcome as the as-written checks, and an accepted record has a well-formed job name |
| ArchiveInfos.MonthTagReadsBack | Lcl.EventLog/Jobs/Archival/ArchiveInfo.cs:100 | the "yyyy-MM" month tag of a valid year and month matches the tag pattern, holds no '.', '/' or '\\', and its first four and last two digits read back as year and month |
| ArchiveInfos.ArchiveInfo.MonthTag | Lcl.EventLog/Jobs/Archival/ArchiveInfo.cs:100 | a tag of the form the parser demands whose digits read back as the archive's year and month |
| ArchiveInfos.SealedName | Lcl.EventLog/Jobs/Archival/ArchiveInfo.cs:138-147 | GetSealedName succeeds exactly when both bounds are known, and otherwise fails with InvalidOperationException |
| ArchiveInfos.ArchiveInfo.GetSealedName | Lcl.EventLog/Jobs/Archival/ArchiveInfo.cs:138-147 | succeeds exactly when the archive is sealed, and otherwise fails with InvalidOperationException |
| ArchiveInfos.ArchiveInfo.GetUnsealedName | Lcl.EventLog/Jobs/Archival/ArchiveInfo.cs:128-132 | for fields the corrected parser accepts, the name parses back, on any machine, to this archive with both bounds unknown and the compression chosen, the default one when none is given |
| ArchiveInfos.BaseNameOfName | Lcl.EventLog/Jobs/Archival/ArchiveInfo.cs:185 | Path.GetFileName leaves a name without directory separators unchanged |
| ArchiveInfos.ParseInt64 | Lcl.EventLog/Jobs/Archival/ArchiveInfo.cs:220-221 | Int64.Parse yields a value within the signed 64-bit range, or FormatException or OverflowException |
| ArchiveInfos.ParseDigits | Lcl.EventLog/Jobs/Archival/ArchiveInfo.cs:220-221 | a non-empty run of ASCII digits within the 64-bit range parses to its decimal value |
| ArchiveInfos.ParseRid | Lcl.EventLog/Jobs/Archival/ArchiveInfo.cs:220-221 | an empty range part gives null; a non-empty one succeeds exactly when Int64.Parse does, with its value |
| ArchiveInfos.ParseFileNameWith | Lcl.EventLog/Jobs/Archival/ArchiveInfo.cs:183-236 | FromFileName's parse: any record it yields passes the constructor's checks, and every error is one the parse can throw |
| ArchiveInfos.Stem | Lcl.EventLog/Jobs/Archival/ArchiveInfo.cs:186-190 | the name is kept, or loses exactly its last three characters |
| ArchiveInfos.ParseParts | Lcl.EventLog/Jobs/Archival/ArchiveInfo.cs:191-197 | a split other than six parts gives ArgumentException; a success keeps part 1 as the job name and the compression flag |
| ArchiveInfos.ParseFields | Lcl.EventLog/Jobs/Archival/ArchiveInfo.cs:210-235 | a success keeps the job name and compression flag, and substitutes the local machine for an empty machine part |
| ArchiveInfos.AsWrittenParseAlwaysFails | Lcl.EventLog/Jobs/Archival/ArchiveInfo.cs:204 | FromFileName as written fails on every name: after the split on '.', no part can equal ".evarc" |
| ArchiveInfos.ParseArchiveFileNameAsWritten | Lcl.EventLog/Jobs/Archival/ArchiveInfo.cs:183-236 | any record it yields passes the constructor's checks and every error is one FromFileName can throw; AsWrittenParseAlwaysFails shows it never yields one |
| ArchiveInfos.ParseArchiveFileNameIntended | Lcl.EventLog/Jobs/Archival/ArchiveInfo.cs:183-236 | any record it yields passes the constructor's checks with the job name matched in full, and every error is one FromFileName can throw; UnsealedNameRoundTrip and SealedNameRoundTrip show it reads back every name the class builds |
| ArchiveInfos.DottedPartsFail | Lcl.EventLog/Jobs/Archival/ArchiveInfo.cs:198-209 | parts free of '.' are never accepted by the as-written comparison |
| ArchiveInfos.DottedEndingNeverMatches | Lcl.EventLog/Jobs/Archival/ArchiveInfo.cs:204 | a text without '.' never equals ".evarc", ignoring case |
| ArchiveInfos.ArchiveFileNameParses | Lcl.EventLog/Jobs/Archival/ArchiveInfo.cs:183-236 | a file name built from well-formed fields and a range part reads back as those fields with the parsed bounds and compression flag (see also lines 128-132) |
| ArchiveInfos.SuffixReadsBack | Lcl.EventLog/Jobs/Archival/ArchiveInfo.cs:186-190 | the ".gz" suffix is detected exactly when it was added, and stripping it gives back the name before it (see also line 130) |
| ArchiveInfos.NamePartsSplit | Lcl.EventLog/Jobs/Archival/ArchiveInfo.cs:131 | joining the six name parts with '.' and splitting on '.' gives the parts back (see also line 191) |
| ArchiveInfos.RidPartParses | Lcl.EventLog/Jobs/Archival/ArchiveInfo.cs:220-221 | a bound written with at least six digits, or left empty, parses back to the same bound (see also line 146) |
| ArchiveInfos.UnsealedNameRoundTrip | Lcl.EventLog/Jobs/Archival/ArchiveInfo.cs:128-132 | parsing GetUnsealedName with the corrected parser gives the same fields, with no bounds and the chosen compression |
| ArchiveInfos.SealedNameRoundTrip | Lcl.EventLog/Jobs/Archival/ArchiveInfo.cs:138-147 | a sealed archive's name exists and parses back with the corrected parser to exactly its fields |
| ArchiveInfos.SealedRangeSplits | Lcl.EventLog/Jobs/Archival/ArchiveInfo.cs:146 | the "min-max" range part splits on '-' into the two padded numbers and holds no '.' or directory separator |
| ArchiveInfos.DottedJobNameUnreadable | Lcl.EventLog/Jobs/Archival/ArchiveInfo.cs:191-197 | a job name with a '.', which the as-written name check lets through, yields a file name of more than six parts that neither parser can read (see also lines 35, 131) |
| ArchiveInfos.Candidates | Lcl.EventLog/Jobs/Archival/ArchiveInfo.cs:265-274 | every candidate is a listed name that matches the glob's prefix and ending |
| ArchiveInfos.ParsedArchives | Lcl.EventLog/Jobs/Archival/ArchiveInfo.cs:275-288 | names that fail to parse are skipped, so there are no more archives than names and each is a valid record |
| ArchiveInfos.FindArchives | Lcl.EventLog/Jobs/Archival/ArchiveInfo.cs:253-289 | as written: ArgumentException exactly when the job-name check rejects the name; otherwise the parsed candidates of the listing, which are always none |
| ArchiveInfos.FindArchivesIntended | Lcl.EventLog/Jobs/Archival/ArchiveInfo.cs:253-289 | with the corrected parser and anchored name check: ArgumentException exactly for an ill-formed job name; otherwise the candidates that parse, in listing order |
| ArchiveInfos.ParseEach | Lcl.EventLog/Jobs/Archival/ArchiveInfo.cs:275-288 | the loop collects exactly the parsed archives of the candidate names, in order |
| ArchiveInfos.ParsedArchivesPrefix | Lcl.EventLog/Jobs/Archival/ArchiveInfo.cs:276-287 | one more name appends its parsed record when it parses and adds nothing when it does not |
| ArchiveInfos.AsWrittenFindsNothing | Lcl.EventLog/Jobs/Archival/ArchiveInfo.cs:276-287 | with the as-written parser, FindArchives finds no archive in any listing (see also line 204) |
| ArchiveInfos.ArchiveInfo.FromFields | Lcl.EventLog/Jobs/Archival/ArchiveInfo.cs:25-75 | an ArchiveInfo holding exactly the checked fields |
| ArchiveInfos.ArchiveInfo.New | Lcl.EventLog/Jobs/Archival/ArchiveInfo.cs:25-75 | the constructor succeeds exactly when its checks pass, fails with their exception otherwise, and holds the checked fields |
| ArchiveInfos.ArchiveInfo.Seal | Lcl.EventLog/Jobs/Archival/ArchiveInfo.cs:159-175 | ArgumentException unless 1 <= min <= max; InvalidOperationException when a known bound differs; otherwise both bounds are set and the archive is sealed; on error nothing changes |
| ArchiveInfos.ArchiveInfo.FromFileName | Lcl.EventLog/Jobs/Archival/ArchiveInfo.cs:183-236 | the as-written parse: succeeds exactly when it does, with its fields or its exception, which by AsWrittenParseAlwaysFails is always an exception |
| ArchiveInfos.ArchiveInfo.FromFileNameIntended | Lcl.EventLog/Jobs/Archival/ArchiveInfo.cs:183-236 | the corrected parse, comparing the last part with "evarc": succeeds exactly when it does, holding its fields |
| ArchiveInfos.SealTwice | Lcl.EventLog/Jobs/Archival/ArchiveInfo.cs:149-175 | sealing again with the same range as a successful first seal succeeds and keeps the range |
| ArchiveInfos.FieldsReadBack | Lcl.EventLog/Jobs/Archival/ArchiveInfo.cs:210-235 | the machine, job, month-tag and range parts of a well-formed record parse back to that record with the range's bounds |
| ArchiveInfos.NamePartsParse | Lcl.EventLog/Jobs/Archival/ArchiveInfo.cs:191-235 | the six parts of a well-formed record's file name parse back to that record |
| ArchiveInfos.BaseName | Lcl.EventLog/Jobs/Archival/ArchiveInfo.cs:185 | Path.GetFileName yields a suffix of the path that holds no directory separator |
| TextBlobStore.FirstIndex | Lcl.EventLog/Utilities/TextBlobStore.cs:223-249 | the first position of a byte: every earlier byte differs from it, and the byte sits at that position when it lies inside |
| TextBlobStore.FirstIndexFound | Lcl.EventLog/Utilities/TextBlobStore.cs:223-224 | the search succeeds exactly when the byte occurs |
| TextBlobStore.ArrayIndexOf | Lcl.EventLog/Utilities/TextBlobStore.cs:223-249 | Array.IndexOf over a window: the window's first occurrence of the byte, offset by the start, or -1 when the window holds none |
| TextBlobStore.BlobsSnoc | Lcl.EventLog/Utilities/TextBlobStore.cs:134-138 | the bytes of one more write follow those of the earlier writes |
| TextBlobStore.NextBlob | Lcl.EventLog/Utilities/TextBlobStore.cs:191-266 | one read either ends, fails with InvalidOperationException, or yields a record and strictly shortens what is left to read |
| TextBlobStore.ReadAllBlobsStep | Lcl.EventLog/Utilities/TextBlobStore.cs:178-185 | ReadAll yields the first record and then what it yields on the rest |
| TextBlobStore.NextBlobOfRecord | Lcl.EventLog/Utilities/TextBlobStore.cs:122-139 | after bytes without STX, the record Write emitted for an accepted text reads back as that text, leaving its LF and what follows (see also lines 191-202) |
| TextBlobStore.NextBlobEnd | Lcl.EventLog/Utilities/TextBlobStore.cs:214-235 | with no STX left, or a zero-length buffer, the read yields null and consumes everything |
| TextBlobStore.NextBlobSkip | Lcl.EventLog/Utilities/TextBlobStore.cs:223-233 | bytes before the first STX do not change what the read yields |
| TextBlobStore.NextBlobUnterminated | Lcl.EventLog/Utilities/TextBlobStore.cs:249-263 | an STX without an ETX within one buffer's length of it fails with InvalidOperationException |
| TextBlobStore.NextBlobFound | Lcl.EventLog/Utilities/TextBlobStore.cs:197-201 | with the STX and the ETX located, the read yields the decoded bytes between them and continues after the ETX |
| TextBlobStore.ReadAllOfBlobs | Lcl.EventLog/Utilities/TextBlobStore.cs:122-139 | after bytes without STX, what Write emitted for a sequence of accepted texts reads back as exactly those texts, in order, and ends without error (see also lines 178-185) |
| TextBlobStore.Writer.constructor | Lcl.EventLog/Utilities/TextBlobStore.cs:94-107 | a writer with the given limit that has written nothing |
| TextBlobStore.Writer.Write | Lcl.EventLog/Utilities/TextBlobStore.cs:122-139 | ArgumentException exactly for a text of more than MaxBlobSize UTF-8 bytes or one holding ETX, with nothing written; otherwise the stream receives STX, the text's UTF-8 bytes, ETX and LF |
| TextBlobStore.CopyAt | Lcl.EventLog/Utilities/TextBlobStore.cs:135 | the bytes land at the offset and the rest of the buffer is unchanged |
| TextBlobStore.NewWriter | Lcl.EventLog/Utilities/TextBlobStore.cs:94-107 | ArgumentException for a stream that cannot be written or a limit above 0xFFF0; OverflowException for a limit below -8; otherwise a fresh writer with that limit |
| TextBlobStore.WriterReadsBack | Lcl.EventLog/Utilities/TextBlobStore.cs:35-59 | everything a writer wrote, read through a reader with at least its limit, gives back the accepted texts in order, with no error |
| TextBlobStore.Reader.constructor | Lcl.EventLog/Utilities/TextBlobStore.cs:160-164 | a reader with an empty buffer of maxBlobSize + 8 bytes, computed in 32-bit arithmetic, over the whole stream |
| TextBlobStore.Reader.Compact | Lcl.EventLog/Utilities/TextBlobStore.cs:281-283 | the unread bytes move to the front of the buffer; the bytes still to be read are unchanged |
| TextBlobStore.Reader.ReadMore | Lcl.EventLog/Utilities/TextBlobStore.cs:285-286 | Source.Read appends the smaller of the free space, the bytes left and the read limit; the bytes still to be read are unchanged |
| TextBlobStore.Reader.FillBuffer | Lcl.EventLog/Utilities/TextBlobStore.cs:276-288 | the intended refill: unread bytes at the front, as much more as fits and the read brings, true exactly when the buffer holds data |
| TextBlobStore.Reader.FillBufferAsWritten | Lcl.EventLog/Utilities/TextBlobStore.cs:276-288 | the refill as written: the pointers are reset only when unread bytes remain; otherwise the read appends at the old tail; the result says whether the tail is past 0 |
| TextBlobStore.Reader.MoveToNextRecord | Lcl.EventLog/Utilities/TextBlobStore.cs:214-235 | the intended scan: true exactly when an STX is still to be read, then the read pointer is at the first one; false leaves nothing to read |
| TextBlobStore.Reader.EnsureBuffered | Lcl.EventLog/Utilities/TextBlobStore.cs:216-222 | refills only an exhausted buffer; true exactly when unread bytes are buffered |
| TextBlobStore.Reader.SkipToStart | Lcl.EventLog/Utilities/TextBlobStore.cs:223-227 | the read pointer moves to the first buffered STX, or to the tail when the buffer holds none |
| TextBlobStore.Reader.MoveToNextRecordAsWritten | Lcl.EventLog/Utilities/TextBlobStore.cs:214-235 | the scan as written: with data buffered and no STX left it stores the -1 of the failed search and still returns true; with the next STX in reach it behaves as intended |
| TextBlobStore.Reader.FindRecordEnd | Lcl.EventLog/Utilities/TextBlobStore.cs:237-266 | the position of the ETX after the STX at the read pointer, found exactly when it lies within the buffer's length and within what one refill brings; InvalidOperationException otherwise |
| TextBlobStore.Reader.SearchEnd | Lcl.EventLog/Utilities/TextBlobStore.cs:249 | the buffered ETX found is the first ETX still to be read; -1 means it lies beyond the buffered bytes |
| TextBlobStore.Reader.TryReadIntended | Lcl.EventLog/Utilities/TextBlobStore.cs:191-202 | TryRead with the intended scan: with full reads, exactly one NextBlob step; a short read can only cut a record with InvalidOperationException |
| TextBlobStore.Reader.TakeBlob | Lcl.EventLog/Utilities/TextBlobStore.cs:198-201 | yields the decoded bytes between STX and ETX and consumes through the ETX |
| TextBlobStore.Reader.TryReadAsWritten | Lcl.EventLog/Utilities/TextBlobStore.cs:191-235 | TryRead as written: an IndexOutOfRangeException whenever the reader has buffered data and no STX is left, and only when the next STX was out of reach; otherwise the intended step |
| TextBlobStore.Reader.ReadAllIntended | Lcl.EventLog/Utilities/TextBlobStore.cs:178-185 | with full reads, exactly ReadAllBlobs of the unread bytes; a short read can only stop it early with InvalidOperationException |
| TextBlobStore.Reader.ReadAllAsWritten | Lcl.EventLog/Utilities/TextBlobStore.cs:178-185 | the records read are a prefix of ReadAllBlobs, and once a record is read the enumeration always ends in an exception instead of the end of the stream |
| TextBlobStore.ShortReadStops | Lcl.EventLog/Utilities/TextBlobStore.cs:178-185 | a read ending in an exception ends ReadAll with that exception, or a short read's InvalidOperationException cuts the records short |
| TextBlobStore.NewReader | Lcl.EventLog/Utilities/TextBlobStore.cs:160-164 | the buffer length maxBlobSize + 8 wraps in 32 bits; a negative length is an OverflowException, exactly when the limit lies outside -8 to Int32.MaxValue - 8; otherwise a reader over the whole stream |
| TextBlobStore.ReadBackAsWritten | Lcl.EventLog/Utilities/TextBlobStore.cs:35-59 | the as-written reader over what a writer wrote yields the first text, only written texts in order, and ends in IndexOutOfRangeException (see also lines 223-233) |
| TextBlobStore.BlobsReadBack | Lcl.EventLog/Utilities/TextBlobStore.cs:35-59 | what a writer wrote starts with STX, its first read is the first text, and ReadAll gives back all the texts |
| TextBlobStore.OneRecordAsWritten | Lcl.EventLog/Utilities/TextBlobStore.cs:223-233 | on the stream holding only "a", the as-written reader yields "a" and then IndexOutOfRangeException instead of null |
| TextBlobStore.OneRecord | Lcl.EventLog/Utilities/TextBlobStore.cs:191-235 | on the same stream the intended reader yields "a" and then null |
| TextBlobStore.ShortReadCutsRecord | Lcl.EventLog/Utilities/TextBlobStore.cs:249-263 | through reads of two bytes, the record of "abc" is reported unterminated with InvalidOperationException |
| TextBlobStore.Reader.ReadStartedRecord | Lcl.EventLog/Utilities/TextBlobStore.cs:197-201 | from an STX at the read pointer: the record up to its ETX, or the InvalidOperationException of an unterminated record, as ReadOutcome allows |
| Tlob.EncodeDigits | Lcl.EventLog/Utilities/TlobWriter.cs:96-97 | the UTF-8 bytes of ASCII digits are their character codes, one byte each |
| Tlob.DecodeDigits | Lcl.EventLog/Utilities/TlobReader.cs:117 | bytes that are ASCII digits decode to the digit characters with those codes |
| Tlob.DeclaredSize | Lcl.EventLog/Utilities/TlobReader.cs:117-118 | the size a valid header declares is at most 999999 |
| Tlob.Header | Lcl.EventLog/Utilities/TlobWriter.cs:96-99 | the header is eight bytes |
| Tlob.HeaderReadsBack | Lcl.EventLog/Utilities/TlobWriter.cs:96-99 | the header written for a size up to 999999 passes the reader's checks and declares exactly that size |
| Tlob.Frame | Lcl.EventLog/Utilities/TlobWriter.cs:101-102 | a record is the eight header bytes followed by the text's UTF-8 bytes |
| Tlob.FramesSnoc | Lcl.EventLog/Utilities/TlobWriter.cs:101-102 | the bytes of one more record follow those of the earlier records |
| Tlob.ReadRecord | Lcl.EventLog/Utilities/TlobReader.cs:85-130 | null exactly at the end of the stream; a short header is IOException; a GZip magic number is reported as such; a record read consumes exactly the header and the declared size |
| Tlob.ReadAllFromRecord | Lcl.EventLog/Utilities/TlobReader.cs:135-142 | ReadAll yields the first record and then what it yields on the rest |
| Tlob.ReadWrittenRecord | Lcl.EventLog/Utilities/TlobReader.cs:85-130 | a record as the writer frames it reads back as the same text, leaving what follows, when reads are full |
| Tlob.ShortPayloadRead | Lcl.EventLog/Utilities/TlobReader.cs:124-128 | a payload longer than one read delivers is reported truncated, although the stream holds all of it |
| Tlob.ReadAllWritten | Lcl.EventLog/Utilities/TlobReader.cs:135-142 | the records of a sequence of texts read back as those texts, in order, ending without error, when reads are full |
| Tlob.CopyBytes | Lcl.EventLog/Utilities/TlobWriter.cs:97-100 | the bytes land at the front of the buffer |
| Tlob.TlobWriter.constructor | Lcl.EventLog/Utilities/TlobWriter.cs:28-34 | a writer that is not disposed and has written nothing |
| Tlob.TlobWriter.WriteTlob | Lcl.EventLog/Utilities/TlobWriter.cs:81-103 | ObjectDisposedException after Dispose; ArgumentException for more than 999999 UTF-8 bytes; otherwise the stream receives the header and the bytes, and the blob buffer grows to hold them |
| Tlob.TlobWriter.Dispose | Lcl.EventLog/Utilities/TlobWriter.cs:108-116 | the writer is disposed, the stream is disposed once however often Dispose is called, and nothing else is written |
| Tlob.WriterReadsBack | Lcl.EventLog/Utilities/TlobWriter.cs:81-103 | everything a writer wrote reads back, with reads of at least 999999 bytes, as the texts it accepted, in order, with no error |
| Tlob.TlobReader.constructor | Lcl.EventLog/Utilities/TlobReader.cs:32-37 | a reader that is not disposed, over the whole stream |
| Tlob.TlobReader.Read | Lcl.EventLog/Utilities/TlobReader.cs:88-124 | Stream.Read delivers at most the count, the bytes left and the read limit, from the front of the stream |
| Tlob.TlobReader.TryRead | Lcl.EventLog/Utilities/TlobReader.cs:85-130 | ObjectDisposedException after Dispose, with nothing consumed; otherwise exactly one ReadRecord step over the stream |
| Tlob.TlobReader.ReadAll | Lcl.EventLog/Utilities/TlobReader.cs:135-142 | the records ReadAllFrom gives for the stream, with the exception that stopped it |
| Tlob.TlobReader.Dispose | Lcl.EventLog/Utilities/TlobReader.cs:147-154 | the reader is disposed and the stream is disposed once, however often Dispose is called |
| TimeUtil.EpochConsistent | Lcl.EventLog/Utilities/TimeUtil.cs:24-36 | 1970-01-01 is a valid date whose day number, in ticks, is TicksAtEpoch, and the epoch DateTimeOffset's UTC ticks are TicksAtEpoch |
| TimeUtil.TicksSinceEpochDto | Lcl.EventLog/Utilities/TimeUtil.cs:42-45 | the UTC ticks (clock ticks less the offset) counted from the epoch |
| TimeUtil.TicksSinceEpoch | Lcl.EventLog/Utilities/TimeUtil.cs:56-64 | ArgumentException exactly for an Unspecified kind; a UTC time counts its own ticks from the epoch; a local time is first converted to UTC |
| TimeUtil.EpochDateTime | Lcl.EventLog/Utilities/TimeUtil.cs:79-82 | a UTC DateTime exactly when the ticks stay within DateTime's range, lying that many ticks after the epoch; ArgumentOutOfRangeException otherwise |
| TimeUtil.EpochDateTimeOffset | Lcl.EventLog/Utilities/TimeUtil.cs:70-73 | a zero-offset DateTimeOffset that many ticks after the epoch, exactly when in range |
| TimeUtil.EpochRoundTrip | Lcl.EventLog/Utilities/TimeUtil.cs:42-82 | for in-range ticks, TicksSinceEpoch(EpochDateTime(t)) == t, and the same through DateTimeOffset |
| TimeUtil.DateOfSeconds | Lcl.EventLog/Utilities/TimeUtil.cs:95-100 | the date of a second count is a valid date whose day number is the count's whole days |
| TimeUtil.ToTimeStringEpoch | Lcl.EventLog/Utilities/TimeUtil.cs:129-132 | epoch ticks render exactly when they lie within DateTime's range |
| TimeUtil.ParseClock | Lcl.EventLog/Utilities/TimeUtil.cs:147-151 | a "yyyyMMdd-HHmmss" text that parses has the stamp's digit layout and gives a second count within DateTime's range |
| TimeUtil.ParseExact | Lcl.EventLog/Utilities/TimeUtil.cs:147-151 | a parse of either format gives ticks within DateTime's range |
| TimeUtil.ParseDateTime | Lcl.EventLog/Utilities/TimeUtil.cs:138-154 | succeeds exactly when ParseExact does, with its ticks and the caller's kind; text without a stamp anywhere is an ArgumentException |
| TimeUtil.ParseExactHasStamp | Lcl.EventLog/Utilities/TimeUtil.cs:140-151 | every text ParseExact accepts contains the stamp the regex looks for, so the regex never refuses a parsable text |
| TimeUtil.ParseEpochTicks | Lcl.EventLog/Utilities/TimeUtil.cs:218-221 | succeeds exactly when ParseExact does, giving its ticks counted from the epoch |
| TimeUtil.DaysBeforeMonthBound | Lcl.EventLog/Utilities/TimeUtil.cs:95-100 | the days before a month plus its own days stay within the year, and fill it in December |
| TimeUtil.YearLength | Lcl.EventLog/Utilities/TimeUtil.cs:95-100 | consecutive years' day numbers differ by 366 in a leap year and 365 otherwise |
| TimeUtil.FieldsRoundTrip | Lcl.EventLog/Utilities/TimeUtil.cs:98 | zero-padded fields written in the format's widths are digits that read back as the same fields (see also line 149) |
| TimeUtil.ClockText | Lcl.EventLog/Utilities/TimeUtil.cs:98 | the "yyyyMMdd-HHmmss" text of a second count has 15 characters and parses back to the same count |
| TimeUtil.TimeString | Lcl.EventLog/Utilities/TimeUtil.cs:97-99 | 23 characters in the full format and 15 in the short one |
| TimeUtil.ToTimeString | Lcl.EventLog/Utilities/TimeUtil.cs:95-100 | 23 characters in the full format and 15 in the short one, whatever the kind; that ParseExact reads the text back is TimeStringRoundTrip and ShortTimeStringRoundTrip |
| TimeUtil.ToTimeStringDto | Lcl.EventLog/Utilities/TimeUtil.cs:112-117 | the same text for the clock time, whatever the offset |
| TimeUtil.ParseExactFull | Lcl.EventLog/Utilities/TimeUtil.cs:149 | a clock text followed by '-' and seven digits parses to the clock's ticks plus the fraction |
| TimeUtil.TimeStringRoundTrip | Lcl.EventLog/Utilities/TimeUtil.cs:95-100 | the full time string of any tick count in range parses back to exactly that count (see also lines 147-151) |
| TimeUtil.ShortTimeStringRoundTrip | Lcl.EventLog/Utilities/TimeUtil.cs:95-100 | the short time string parses back to the count truncated to whole seconds (see also lines 147-151) |
| TimeUtil.EpochTimeStringRoundTrip | Lcl.EventLog/Utilities/TimeUtil.cs:129-132 | ParseEpochTicks(ToTimeString(t)) == t for every t within DateTime's range (see also lines 218-221) |
| XmlFixer.Escape | Lcl.EventLog/Utilities/XmlFixer.cs:38-40 | the escape of a bad character is "&#x", four hexadecimal digits whose value is the character's code, and ";" |
| XmlFixer.Fixed | Lcl.EventLog/Utilities/XmlFixer.cs:33-46 | the output is never shorter than the input (FixedLength gives the exact length) |
| XmlFixer.FixXml | Lcl.EventLog/Utilities/XmlFixer.cs:24-54 | the loop builds exactly Fixed(xml): each character in 0x01-0x08, 0x0B-0x0C or 0x0E-0x1F escaped, every other one copied |
| XmlFixer.FixedWithoutBad | Lcl.EventLog/Utilities/XmlFixer.cs:49-53 | a text without bad characters comes back unchanged |
| XmlFixer.FixedLength | Lcl.EventLog/Utilities/XmlFixer.cs:36-45 | the output is longer than the input by seven characters per escaped character |
| XmlFixer.CountBadPositive | Lcl.EventLog/Utilities/XmlFixer.cs:26-30 | some character is escaped exactly when the text has a bad character |
| XmlFixer.FixedUnchanged | Lcl.EventLog/Utilities/XmlFixer.cs:26-53 | the text comes back unchanged exactly when it holds no bad character |
| XmlFixer.FixedClean | Lcl.EventLog/Utilities/XmlFixer.cs:36-45 | the output holds no bad character |
| XmlFixer.FixedIdempotent | Lcl.EventLog/Utilities/XmlFixer.cs:24-54 | fixing twice gives the same as fixing once |
| XmlFixer.FixedConcat | Lcl.EventLog/Utilities/XmlFixer.cs:33-46 | the fix works character by character: fixing a concatenation concatenates the fixes |
| XmlUtilities.FixXml | Lcl.EventLog/Utilities/XmlUtilities.cs:28-57 | the second copy gives the same patched text, which a further fix leaves unchanged |
| XmlConversions.ParseHex | Lcl.EventLog/Utilities/XmlStringValueConversions.cs:36-56 | parsing with AllowHexSpecifier succeeds exactly for a non-empty run of hexadecimal digits below 2^64, giving its value; digits too large are an OverflowException, anything else a FormatException |
| XmlConversions.ParseDecimal | Lcl.EventLog/Utilities/XmlStringValueConversions.cs:38-58 | parsing with NumberStyles.None succeeds exactly for a non-empty run of ASCII digits not above the type's maximum; too large is OverflowException, anything else FormatException |
| XmlConversions.AsUnsigned | Lcl.EventLog/Utilities/XmlStringValueConversions.cs:47-59 | null exactly for a null or empty text; otherwise a value in the UInt64 range or FormatException/OverflowException |
| XmlConversions.AsInteger | Lcl.EventLog/Utilities/XmlStringValueConversions.cs:27-39 | null exactly for a null or empty text; otherwise a value in the Int64 range or FormatException/OverflowException |
| XmlConversions.AsUnsignedDecimal | Lcl.EventLog/Utilities/XmlStringValueConversions.cs:58 | the decimal text of any UInt64 value reads back as that value |
| XmlConversions.AsUnsignedHex | Lcl.EventLog/Utilities/XmlStringValueConversions.cs:33-56 | "0x" or "0X" followed by hexadecimal digits below 2^64 reads as their value unsigned, and as that value's 64-bit two's-complement reading signed |
| XmlConversions.BarePrefixFails | Lcl.EventLog/Utilities/XmlStringValueConversions.cs:33-56 | a bare "0x" or "0X" is a FormatException |
| XmlConversions.NoSignNoSpace | Lcl.EventLog/Utilities/XmlStringValueConversions.cs:38-58 | NumberStyles.None refuses a sign and leading white space |
| XmlConversions.IntegerFromUnsigned | Lcl.EventLog/Utilities/XmlStringValueConversions.cs:27-59 | AsInteger agrees with AsUnsigned: the same errors, hex values reinterpreted as signed, decimal values kept when they fit Int64 and otherwise an OverflowException |
| XmlConversions.ConversionExamples | Lcl.EventLog/Utilities/XmlStringValueConversions.cs:27-59 | "0xa3fc" reads as 41980 and "0x8020000000000000" as 0x8020000000000000 |
| XmlConversions.AllOnesIsMinusOne | Lcl.EventLog/Utilities/XmlStringValueConversions.cs:36-56 | "0xFFFFFFFFFFFFFFFF" is UInt64.MaxValue unsigned and -1 signed |
| FieldTransforms.NotEmptyTransform | Lcl.EventLog/Utilities/Xml/TrxNotEmpty.cs:30-38 | passes a non-empty value through unchanged and refuses the empty one with InvalidOperationException |
| FieldTransforms.FieldTransform.Apply | Lcl.EventLog/Utilities/Xml/XmlFieldTransform.cs:36 | Transform: fails only with InvalidOperationException; a success is empty exactly when the value was; "notempty" succeeds exactly on a non-empty value and "unsigned" yields decimal digits |
| FieldTransforms.UnsignedTransform | Lcl.EventLog/Utilities/Xml/TrxUnsigned.cs:32-60 | the empty value stays empty; a non-empty result is decimal digits; every failure is InvalidOperationException (UnsignedAgreesWithConversion ties it to AsUnsigned) |
| FieldTransforms.UnsignedAgreesWithConversion | Lcl.EventLog/Utilities/Xml/TrxUnsigned.cs:32-60 | the empty value passes through; otherwise the transform succeeds exactly when AsUnsigned does, giving the decimal text of its value; every failure is InvalidOperationException |
| FieldTransforms.UnsignedCanonical | Lcl.EventLog/Utilities/Xml/TrxUnsigned.cs:43-53 | a non-empty result is plain decimal digits without a leading zero, within the UInt64 range |
| FieldTransforms.UnsignedIdempotent | Lcl.EventLog/Utilities/Xml/TrxUnsigned.cs:32-60 | applying the transform to its own result gives the same result |
| FieldTransforms.KeepsNonEmpty | Lcl.EventLog/Utilities/Xml/TrxUnsigned.cs:32-60 | neither transform turns a non-empty value into the empty one |
| FieldTransforms.UnsignedExamples | Lcl.EventLog/Utilities/Xml/TrxUnsigned.cs:38-59 | "0xa3fc" becomes "41980" and "-1" is refused with InvalidOperationException |
| FieldTransforms.NameFolded | Lcl.EventLog/Utilities/Xml/TrxUnsigned.cs:25 | the transforms' names are already in folded form |
| FieldTransforms.TransformRegistry.constructor | Lcl.EventLog/Utilities/Xml/TransformRegistry.cs:25-28 | an empty registry |
| FieldTransforms.TransformRegistry.Register | Lcl.EventLog/Utilities/Xml/TransformRegistry.cs:41-45 | the transform replaces any entry under its name, ignoring case, and the registry itself is returned |
| FieldTransforms.TransformRegistry.Find | Lcl.EventLog/Utilities/Xml/TransformRegistry.cs:59-69 | a transform exactly when one is registered under the name ignoring case, and it bears that name |
| FieldTransforms.NewDefault | Lcl.EventLog/Utilities/Xml/TransformRegistry.cs:33-36 | a registry holding "notempty" and "unsigned" |
| FieldTransforms.Lookup | Lcl.EventLog/Utilities/Xml/TransformRegistry.cs:27 | the dictionary under StringComparer.OrdinalIgnoreCase: a transform exactly when the folded name is a key, and then one that is registered |
| FieldTransforms.FindAfterRegister | Lcl.EventLog/Utilities/Xml/TransformRegistry.cs:41-69 | after Register, Find by a name equal ignoring case gives the new transform, and every other name finds what it found before |
| FieldTransforms.DefaultFinds | Lcl.EventLog/Utilities/Xml/TransformRegistry.cs:33-69 | the default registry finds exactly "notempty" and "unsigned", ignoring case |
| EventQueries.NewQuery | Lcl.EventLog/Utilities/Xml/XmlEventQuery.cs:25-33 | label and expression kept; a null transform list becomes the empty one |
| EventQueries.Evaluate | Lcl.EventLog/Utilities/Xml/XmlEventQuery.cs:91-113 | the loop's outcome is the query's value: the expression evaluated, then each listed transform applied in order |
| EventQueries.ApplyTransforms | Lcl.EventLog/Utilities/Xml/XmlEventQuery.cs:101-110 | the loop applies the named transforms in order, stopping at the first unknown name or failing transform |
| EventQueries.ApplyAll | Lcl.EventLog/Utilities/Xml/XmlEventQuery.cs:101-110 | no names leave the value as it is; a failure is KeyNotFoundException or a transform's InvalidOperationException; an unknown name anywhere in the list makes the whole pipeline fail |
| EventQueries.QueryResult | Lcl.EventLog/Utilities/Xml/XmlEventQuery.cs:91-113 | a failing expression passes its exception on; without transforms the value is the expression's; otherwise the listed transforms apply to that value |
| EventQueries.ApplyAllStep | Lcl.EventLog/Utilities/Xml/XmlEventQuery.cs:101-110 | an unknown first name is KeyNotFoundException, a failing first transform passes its exception on, otherwise the rest applies to the transformed value |
| EventQueries.TransformNamesClean | Lcl.EventLog/Utilities/Xml/XmlEventQuery.cs:96-100 | every name the split yields is non-empty, free of commas, and neither starts nor ends with a char.IsWhiteSpace character (ASCII white space, U+0085, U+00A0 and the Unicode space, line and paragraph separators) |
| EventQueries.TransformNamesOfJoin | Lcl.EventLog/Utilities/Xml/XmlEventQuery.cs:96-100 | a comma-joined list of clean names (non-empty, comma free, no char.IsWhiteSpace character at either end) splits back into exactly those names |
| EventQueries.PaddedNameRead | Lcl.EventLog/Utilities/Xml/XmlEventQuery.cs:96-100 | a clean name padded on both sides with any char.IsWhiteSpace characters reads as that one name |
| EventQueries.NoBreakSpaceTrimmed | Lcl.EventLog/Utilities/Xml/XmlEventQuery.cs:98 | "notempty" followed by a no-break space U+00A0 reads as "notempty", since String.Trim strips it |
| EventQueries.TransformNames | Lcl.EventLog/Utilities/Xml/XmlEventQuery.cs:96-100 | the comma-separated names, trimmed and without empty ones; what this means is stated by TransformNamesClean, TransformNamesOfJoin and PaddedNameRead |
| EventQueries.ApplyAllConcat | Lcl.EventLog/Utilities/Xml/XmlEventQuery.cs:101-110 | applying two lists of names one after the other is applying their concatenation |
| EventQueries.ApplyAllNamesKnown | Lcl.EventLog/Utilities/Xml/XmlEventQuery.cs:103-108 | when the pipeline succeeds, every listed name was found in the registry |
| EventQueries.ApplyAllNotEmpty | Lcl.EventLog/Utilities/Xml/XmlEventQuery.cs:101-110 | a successful pipeline that lists "notempty" anywhere yields a non-empty value |
| EventQueries.ApplyAllKeepsNonEmpty | Lcl.EventLog/Utilities/Xml/XmlEventQuery.cs:101-110 | a successful pipeline never turns a non-empty value into the empty one |
| EventQueries.ExampleTransforms | Lcl.EventLog/Utilities/Xml/XmlEventQuery.cs:91-113 | "0xa3fc" through "unsigned" and "notempty" in the default registry gives "41980" |
| EventQueries.QueryExample | Lcl.EventLog/Utilities/Xml/XmlEventQuery.cs:91-113 | a ":data:" query whose field holds "0xa3fc" gives "41980" with "unsigned,notempty" and the raw text without transforms |
| XmlDissector.SplitPrefix | Lcl.EventLog/Utilities/Xml/XmlDissector.cs:58-64 | a split into three parts on ':' yields a prefix key without ':' and a suffix that rebuild the expression as ":key:suffix" |
| XmlDissector.CommonPathsUnderSystem | Lcl.EventLog/Utilities/Xml/XmlDissector.cs:80-87 | every ":common:" path lies under /Event/System/ |
| XmlDissector.XpathCommon | Lcl.EventLog/Utilities/Xml/XmlDissector.cs:78-91 | the path of one of the seven known keys, and InvalidOperationException exactly for any other key |
| XmlDissector.IndexDigits | Lcl.EventLog/Utilities/Xml/XmlDissector.cs:183 | the regex ^\$X(\d\d+)$ matches with a group of at least two ASCII digits, the key being "$X" and those digits, optionally followed by the one newline '$' admits |
| XmlDissector.DataXpath | Lcl.EventLog/Utilities/Xml/XmlDissector.cs:181-193 | a key that is not an index key selects Data by its Name; every path lies under /Event/EventData/Data[; only an index key can overflow Int32.Parse (OverflowException) |
| XmlDissector.Rewrite | Lcl.EventLog/Utilities/Xml/XmlDissector.cs:58-73 | an expression without a ":key:" prefix is kept; a rewritten prefix form is a path under /Event/; a failure only comes from a prefix form and is InvalidOperationException or OverflowException |
| XmlDissector.Eval | Lcl.EventLog/Utilities/Xml/XmlDissector.cs:56-75 | fails exactly when the rewriting fails; an expression without a prefix is evaluated as given inside string(...) |
| XmlDissector.EvalNotEmpty | Lcl.EventLog/Utilities/Xml/XmlDissector.cs:129-138 | succeeds exactly when Eval succeeds with a non-empty value, giving that value; an empty value is an InvalidOperationException |
| XmlDissector.SplitPrefixOf | Lcl.EventLog/Utilities/Xml/XmlDissector.cs:58-64 | ":key:suffix" with a key free of ':' splits into that key and suffix, whatever colons the suffix holds |
| XmlDissector.PlainPathUnchanged | Lcl.EventLog/Utilities/Xml/XmlDissector.cs:56-75 | an expression not starting with ':' is evaluated as given inside string(...) |
| XmlDissector.OneColonUnchanged | Lcl.EventLog/Utilities/Xml/XmlDissector.cs:58-61 | an expression with a leading ':' but no second ':' is evaluated as given |
| XmlDissector.SysPrefix | Lcl.EventLog/Utilities/Xml/XmlDissector.cs:151-156 | ":sys:" expressions evaluate as EvalSystem does, with and without an attribute (see also line 67) |
| XmlDissector.UserDataPrefix | Lcl.EventLog/Utilities/Xml/XmlDissector.cs:199-204 | ":udata:" expressions evaluate as EvalUserData does (see also line 69) |
| XmlDissector.DataPrefix | Lcl.EventLog/Utilities/Xml/XmlDissector.cs:166-170 | ":data:" expressions evaluate as EvalData does (see also line 68) |
| XmlDissector.CommonPrefix | Lcl.EventLog/Utilities/Xml/XmlDissector.cs:66-91 | ":common:" with a known key evaluates its System path; with an unknown key it is InvalidOperationException |
| XmlDissector.UnknownPrefix | Lcl.EventLog/Utilities/Xml/XmlDissector.cs:70-71 | any other prefix key is refused with InvalidOperationException |
| XmlDissector.EvalSystem | Lcl.EventLog/Utilities/Xml/XmlDissector.cs:151-156 | never fails: evaluates /Event/System/ followed by the element, or by the element, "/@" and the attribute when one is given, as it stands |
| XmlDissector.EvalData | Lcl.EventLog/Utilities/Xml/XmlDissector.cs:166-170 | evaluates the path DataXpath gives for the key, and fails exactly when DataXpath does, with OverflowException |
| XmlDissector.EvalUserData | Lcl.EventLog/Utilities/Xml/XmlDissector.cs:199-204 | never fails: evaluates the element, or its attribute, under any child of /Event/UserData, as it stands |
| XmlDissector.DataXpathForms | Lcl.EventLog/Utilities/Xml/XmlDissector.cs:181-193 | a key that is not an index key selects Data by its Name attribute; an index key within Int32 selects Data by the decimal position; a Name selection only happens for a non-index key |
| XmlDissector.IndexKeyShape | Lcl.EventLog/Utilities/Xml/XmlDissector.cs:183 | "$X" followed by digits is an index key exactly when there are at least two digits |
| XmlDissector.DataXpathExamples | Lcl.EventLog/Utilities/Xml/XmlDissector.cs:181-193 | "$X07" selects Data[7] and "$X1" is treated as a Name |
| XmlDissector.SynthNameSelectsIndex | Lcl.EventLog/Utilities/Xml/XmlDissector.cs:181-193 | the name MapData synthesises for an unnamed element at a position selects, through DataXpath, the element at that position (see also line 115) |
| XmlDissector.SynthName | Lcl.EventLog/Utilities/Xml/XmlDissector.cs:115 | "$X" followed by at least two digits whose value is the index |
| XmlDissector.DataMap | Lcl.EventLog/Utilities/Xml/XmlDissector.cs:99-124 | at most one entry per element, and the last element's key is always present |
| XmlDissector.MapData | Lcl.EventLog/Utilities/Xml/XmlDissector.cs:99-124 | the loop builds exactly DataMap of the Data elements |
| XmlDissector.DataMapKeys | Lcl.EventLog/Utilities/Xml/XmlDissector.cs:109-119 | the map's keys are exactly the elements' names, a missing name replaced by "$X" and the two-digit position |
| XmlDissector.DataMapLastWins | Lcl.EventLog/Utilities/Xml/XmlDissector.cs:118 | an element whose key no later element repeats maps to its own inner XML |
| LegacyXmlDissector.EvalNotEmpty | Lcl.EventLog/Utilities/XmlDissector.cs:78-87 | succeeds exactly when Eval succeeds with a non-empty value; an empty value is an InvalidOperationException |
| LegacyXmlDissector.Rewrite | Lcl.EventLog/Utilities/XmlDissector.cs:56-71 | an expression without a ":key:" prefix is kept; a rewritten prefix form is a path under /Event/; every failure is InvalidOperationException on a prefix form |
| LegacyXmlDissector.Eval | Lcl.EventLog/Utilities/XmlDissector.cs:54-73 | fails exactly when the rewriting fails, always with InvalidOperationException; an expression without a prefix is evaluated as given |
| LegacyXmlDissector.DataAlwaysNamed | Lcl.EventLog/Utilities/XmlDissector.cs:110-113 | ":data:" always selects Data by Name, index keys included, and agrees with EvalData (see also line 65) |
| LegacyXmlDissector.SysPrefix | Lcl.EventLog/Utilities/XmlDissector.cs:100-105 | ":sys:" expressions evaluate as EvalSystem does (see also line 64) |
| LegacyXmlDissector.UserDataPrefix | Lcl.EventLog/Utilities/XmlDissector.cs:119-124 | ":udata:" expressions evaluate as EvalUserData does (see also line 66) |
| LegacyXmlDissector.OtherPrefixesRefused | Lcl.EventLog/Utilities/XmlDissector.cs:63-69 | every other prefix key, ":common:" included, is refused with InvalidOperationException |
| LegacyXmlDissector.EvalSystem | Lcl.EventLog/Utilities/XmlDissector.cs:100-105 | never fails: evaluates /Event/System/ followed by the element, or by the element and its attribute, as it stands |
| LegacyXmlDissector.EvalData | Lcl.EventLog/Utilities/XmlDissector.cs:110-113 | never fails: evaluates the Data element whose Name attribute is the name, index keys included |
| LegacyXmlDissector.EvalUserData | Lcl.EventLog/Utilities/XmlDissector.cs:119-124 | never fails: evaluates the element, or its attribute, under any child of /Event/UserData, as it stands |
| LegacyXmlDissector.NewerExtendsOlder | Lcl.EventLog/Utilities/XmlDissector.cs:54-73 | wherever the older rewriting succeeds and no index key is used, the newer rewriting gives the same path |
| KeyedMaps.PutAllStep | Lcl.EventLog/Utilities/KeyedMap.cs:84-90 | PutRange is sequential Put: one more item stores it under its key over the earlier result |
| KeyedMaps.PutAllKeys | Lcl.EventLog/Utilities/KeyedMap.cs:84-90 | after PutRange the keys are the earlier keys and the keys of the items |
| KeyedMaps.PutAllLastWins | Lcl.EventLog/Utilities/KeyedMap.cs:84-90 | of several items with the same key, the last one is stored |
| KeyedMaps.PutAllOtherKeys | Lcl.EventLog/Utilities/KeyedMap.cs:84-90 | a key none of the items carries keeps its entry, or stays absent |
| KeyedMaps.PutAllKeyConsistent | Lcl.EventLog/Utilities/KeyedMap.cs:68-90 | every item stays stored under its own key |
| KeyedMaps.Listing | Lcl.EventLog/Utilities/KeyedMap.cs:95 | Items lists each stored item once, and putting them all into an empty map rebuilds the map |
| KeyedMaps.KeyedMap.constructor | Lcl.EventLog/Utilities/KeyedMap.cs:26-33 | the map holds what PutRange of the items gives on an empty map |
| KeyedMaps.KeyedMap.Find | Lcl.EventLog/Utilities/KeyedMap.cs:38-63 | the item stored under the key, or null exactly when the key is absent; a found item carries that key |
| KeyedMaps.KeyedMap.FindLike | Lcl.EventLog/Utilities/KeyedMap.cs:46-48 | the item indexer looks up by the key item's Key |
| KeyedMaps.KeyedMap.Put | Lcl.EventLog/Utilities/KeyedMap.cs:68-71 | the item is stored under its own key, replacing any earlier item; every other key finds what it found before |
| KeyedMaps.KeyedMap.Remove | Lcl.EventLog/Utilities/KeyedMap.cs:76-79 | the key finds nothing afterwards, every other key is unchanged, and removing a missing key changes nothing |
| KeyedMaps.KeyedMap.PutRange | Lcl.EventLog/Utilities/KeyedMap.cs:84-90 | the map becomes PutAll of the items over the old map |
| KeyedMaps.BackedMap.BackingFind | Lcl.EventLog/Utilities/BackedMap.cs:46 | the backing's answer, or null when there is no backing |
| KeyedMaps.BackedMap.constructor | Lcl.EventLog/Utilities/BackedMap.cs:25-33 | the given items go to the front, the backing is kept as given and is not written |
| KeyedMaps.BackedMap.Find | Lcl.EventLog/Utilities/BackedMap.cs:44-47 | the front entry when there is one, otherwise the backing's answer |
| KeyedMaps.BackedMap.Put | Lcl.EventLog/Utilities/BackedMap.cs:53-91 | stores in the front only, so Find of the key gives the item even when the backing holds another; every other key unchanged |
| KeyedMaps.BackedMap.TryPut | Lcl.EventLog/Utilities/BackedMap.cs:71-92 | stores, in the front only, exactly when not restricted or the backing (not the front) lacks the key, and reports whether it stored |
| Rows.TaskInfoKeyIgnoresDescription | Lcl.EventLog/Jobs/Database/TaskInfoRow.cs:66 | two task rows share a Key exactly when they agree on the four id fields, whatever their descriptions |
| Rows.NewOperationInfoRow | Lcl.EventLog/Jobs/Database/OperationInfoRow.cs:35-40 | every id is narrowed to int, keeping ids that fit, and the description is kept as given |
| Rows.NewEventStateRow | Lcl.EventLog/Jobs/Database/EventStateRow.cs:22-27 | Enabled exactly when the argument is non-zero; the ids are narrowed to int, keeping values that fit |
| Rows.DefaultEventState | Lcl.EventLog/Jobs/Database/EventStateRow.cs:22 | the defaults are minimum version 0 and enabled |
| Rows.NewEventRow | Lcl.EventLog/Jobs/Database/EventRow.cs:25-40 | the Key is the record id, stamp and XML kept, TimeStamp the UTC time that many ticks after the epoch, the other ids narrowed to int; ArgumentOutOfRangeException exactly for a stamp outside DateTime's range |
| Rows.EventRowEqualsIsEquality | Lcl.EventLog/Jobs/Database/EventRow.cs:80-90 | for rows whose TimeStamp is derived from TickStamp, Equals holds exactly when the rows are equal |
| Rows.NewEventRowDerived | Lcl.EventLog/Jobs/Database/EventRow.cs:36-37 | a constructed row's TimeStamp is derived from its TickStamp |
| Rows.NewEventHeaderRow | Lcl.EventLog/Jobs/Database/EventHeaderRow.cs:22-38 | record id and stamp kept; the five ids narrowed to int, keeping values that fit |
| Statistics.RunningStep | Lcl.EventLog/Jobs/Database/EventRowStatistics.cs:91-96 | one more row updates each running minimum and maximum with Math.Min and Math.Max of the row's value |
| Statistics.WrappedStep | Lcl.EventLog/Jobs/Database/EventRowStatistics.cs:90-93 | Count and TotalSize are 32-bit ints that wrap: incrementing the wrapped value gives the wrapped total |
| Statistics.RunningMinIsMinimum | Lcl.EventLog/Jobs/Database/EventRowStatistics.cs:91-94 | the running minimum lies at or below every row's value and the start value, and is one of them |
| Statistics.RunningMaxIsMaximum | Lcl.EventLog/Jobs/Database/EventRowStatistics.cs:92-96 | the running maximum lies at or above every row's value and the start value, and is one of them |
| Statistics.SentinelMinIsAttained | Lcl.EventLog/Jobs/Database/EventRowStatistics.cs:42 | starting from long.MaxValue, the minimum over rows with 64-bit values is attained by one of the rows (see also line 91) |
| Statistics.SummarizeStep | Lcl.EventLog/Jobs/Database/EventRowStatistics.cs:87-97 | the totals of the rows with one more are ObserveRow's update of the earlier totals |
| Statistics.SummarizeBounds | Lcl.EventLog/Jobs/Database/EventRowStatistics.cs:87-97 | after at least one row, MinRid <= MaxRid and StampMin <= StampMax bracket every row, MaxSize bounds every XML length, and Count is the number of rows while it fits an int |
| Statistics.EventRowStatistics.constructor | Lcl.EventLog/Jobs/Database/EventRowStatistics.cs:22-25 | the statistics of no rows, with the empty tag |
| Statistics.EventRowStatistics.Reset | Lcl.EventLog/Jobs/Database/EventRowStatistics.cs:72-82 | the new tag, zero counts and sizes, and the sentinels long.MaxValue for the minima and long.MinValue for the maxima |
| Statistics.EventRowStatistics.ObserveRow | Lcl.EventLog/Jobs/Database/EventRowStatistics.cs:87-97 | the row joins the observed rows, the totals take one ObserveStep, the totals stay those of all observed rows, and the minima stay at or below the maxima |
| InfoCaches.Revision | Lcl.EventLog/Jobs/Database/TaskInfoCache.cs:40-44 | a row is written exactly when none exists or a non-null description differs from the stored one, and it then carries the new description, or the old one when the new is null |
| InfoCaches.RevisionSettles | Lcl.EventLog/Jobs/Database/TaskInfoCache.cs:38-45 | observing the description just stored writes nothing more, and a null description never revises an existing row |
| InfoCaches.LoadedRevision | Lcl.EventLog/Jobs/Database/OperationInfoCache.cs:66-80 | the loader variant writes exactly when no row exists or the stored description is null and the loader yields one, storing the loader's result; the loader runs only in those cases |
| InfoCaches.LoadedRevisionKeeps | Lcl.EventLog/Jobs/Database/OperationInfoCache.cs:74 | an existing row is left alone when the loader returns null |
| InfoCaches.Flatten | Lcl.EventLog/Jobs/Database/TaskInfoCache.cs:59-62 | the description of a found row, or null when there is no row or no description |
| InfoCaches.TaskInfoCache.constructor | Lcl.EventLog/Jobs/Database/TaskInfoCache.cs:27-32 | the existing rows form the backing map, keyed by their four ids; no new rows |
| InfoCaches.TaskInfoCache.FromDb | Lcl.EventLog/Jobs/Database/EventInsertionLogic.cs:45 | assumed: a cache backed by the database's TaskInfo rows, with no new rows |
| InfoCaches.TaskInfoCache.Find | Lcl.EventLog/Jobs/Database/TaskInfoCache.cs:51-54 | a new row under the key when there is one, else the backing's row; a found row carries the key |
| InfoCaches.TaskInfoCache.TaskDescription | Lcl.EventLog/Jobs/Database/TaskInfoCache.cs:59-62 | the found row's description, or null when no row is found |
| InfoCaches.TaskInfoCache.Observe | Lcl.EventLog/Jobs/Database/TaskInfoCache.cs:38-45 | NewRows takes the Revision under the key when there is one; afterwards the key is found, its description is the given one or, when that is null, the earlier one; the backing is untouched |
| InfoCaches.TaskInfoCache.ObserveHeader | Lcl.EventLog/Jobs/Database/EventInsertionLogic.cs:87 | assumed to follow the loader variant at Lcl.EventLog/Jobs/Database/OperationInfoCache.cs:66-80: the loader runs exactly when no row or no description is stored, NewRows takes the loaded revision, the key is found afterwards and the backing is untouched |
| InfoCaches.OperationInfoCache.constructor | Lcl.EventLog/Jobs/Database/OperationInfoCache.cs:27-32 | the existing rows form the backing map, keyed by their five ids; no new rows |
| InfoCaches.OperationInfoCache.FromDb | Lcl.EventLog/Jobs/Database/OperationInfoCache.cs:37-40 | a cache backed by the database's OperationInfo rows, with no new rows |
| InfoCaches.OperationInfoCache.Find | Lcl.EventLog/Jobs/Database/OperationInfoCache.cs:86-89 | a new row under the key when there is one, else the backing's row; a found row carries the key |
| InfoCaches.OperationInfoCache.FindHeader | Lcl.EventLog/Jobs/Database/OperationInfoCache.cs:95-98 | the lookup by a header's five ids; a found row has the header's task key and operation id |
| InfoCaches.OperationInfoCache.TaskDescription | Lcl.EventLog/Jobs/Database/OperationInfoCache.cs:103-106 | the found row's operation description, or null when no row is found |
| InfoCaches.OperationInfoCache.Observe | Lcl.EventLog/Jobs/Database/OperationInfoCache.cs:46-53 | NewRows takes the Revision under the key when there is one; afterwards the key is found with the given description, or the earlier one when that is null; the backing is untouched |
| InfoCaches.OperationInfoCache.ObserveHeader | Lcl.EventLog/Jobs/Database/OperationInfoCache.cs:66-80 | the loader runs exactly when no row or no description is stored; NewRows takes the loaded revision; the key is found afterwards; the backing is untouched |
| InfoCaches.MaxId | Lcl.EventLog/Jobs/Database/ProviderInfoCache.cs:43 | the largest provider id: every row's id is at most it, and some row has it |
| InfoCaches.InitialNextId | Lcl.EventLog/Jobs/Database/ProviderInfoCache.cs:40-43 | an int that lies above every existing id when the maximum id is below Int32.MaxValue |
| InfoCaches.IdsBelowInitial | Lcl.EventLog/Jobs/Database/ProviderInfoCache.cs:36-43 | every id indexed by the constructor lies below the next id |
| InfoCaches.AddRow | Lcl.EventLog/Jobs/Database/ProviderInfoCache.cs:50-64 | a row is added exactly when neither its id nor its name is indexed, to both indexes |
| InfoCaches.AddRowIndexed | Lcl.EventLog/Jobs/Database/ProviderInfoCache.cs:50-64 | adding a row keeps the two indexes describing the same rows |
| InfoCaches.ProviderInfoCache.Init | Lcl.EventLog/Jobs/Database/ProviderInfoCache.cs:31-45 | a cache with the given consistent indexes and next id, and nothing newly added |
| InfoCaches.ProviderInfoCache.New | Lcl.EventLog/Jobs/Database/ProviderInfoCache.cs:31-45 | succeeds exactly when the rows' ids and names are distinct, else InvalidOperationException; every row is found by id and by name, Count is their number, the next id is 1 or the maximum plus 1, and all ids lie below it when it did not wrap |
| InfoCaches.ProviderInfoCache.FromDb | Lcl.EventLog/Jobs/Database/EventInsertionLogic.cs:44 | assumed: the constructor over the database's provider rows, which always succeeds and indexes exactly them |
| InfoCaches.ProviderInfoCache.Add | Lcl.EventLog/Jobs/Database/ProviderInfoCache.cs:50-64 | InvalidOperationException when the id or the name is taken, with nothing changed; otherwise the row is indexed by both |
| InfoCaches.ProviderInfoCache.Observe | Lcl.EventLog/Jobs/Database/ProviderInfoCache.cs:71-92 | a known name with another GUID, null included, is InvalidOperationException and a known name with the same GUID is false, both changing nothing; a new name takes the next id, which then increments with 32-bit wrap, joins NewlyAdded and gives true, unless that id is already taken |
| InfoCaches.ProviderInfoCache.Find | Lcl.EventLog/Jobs/Database/ProviderInfoCache.cs:97-107 | the row under the name, null exactly when the name is unknown |
| InfoCaches.ProviderInfoCache.FindById | Lcl.EventLog/Jobs/Database/ProviderInfoCache.cs:112-122 | the row under the id, null exactly when the id is unknown |
| InfoCaches.ProviderInfoCache.Get | Lcl.EventLog/Jobs/Database/ProviderInfoCache.cs:127-138 | the row under the name, or KeyNotFoundException exactly when Find gives null |
| InfoCaches.ProviderInfoCache.GetById | Lcl.EventLog/Jobs/Database/ProviderInfoCache.cs:143-154 | the row under the id, or KeyNotFoundException exactly when Find gives null |
| InfoCaches.ProviderInfoCache.Count | Lcl.EventLog/Jobs/Database/ProviderInfoCache.cs:164 | the number of indexed providers |
| InfoCaches.ObserveNewNames | Lcl.EventLog/Jobs/Database/ProviderInfoCache.cs:81-87 | N distinct new names observed on an empty cache each give true and get ids 1..N in order, NewlyAdded lists them in that order, and the next id is N + 1 |
| InfoCaches.ObserveUnseen | Lcl.EventLog/Jobs/Database/ProviderInfoCache.cs:81-87 | observing an unknown name while ids lie below the next id gives true, appends the new row and keeps every id below the next one |
| InfoCaches.DuplicateFound | Lcl.EventLog/Jobs/Database/ProviderInfoCache.cs:52-61 | a row whose id or name an earlier row has makes the rows not distinct, so the constructor throws |
| Trackers.DefaultStateAdmits | Lcl.EventLog/Jobs/Database/EventInfoTracker.cs:44-55 | the default state row admits exactly the versions at or above 0 |
| Trackers.EventStateTracker.constructor | Lcl.EventLog/Jobs/Database/EventStateTracker.cs:26-31 | the existing rows form the backing map keyed by event id; nothing updated yet |
| Trackers.EventStateTracker.Find | Lcl.EventLog/Jobs/Database/EventStateTracker.cs:50-52 | an updated row under the id when there is one, else the backing's row; a found row carries the id |
| Trackers.EventStateTracker.IsEnabled | Lcl.EventLog/Jobs/Database/EventStateTracker.cs:59-62 | true exactly when no row is found or the found row is enabled |
| Trackers.EventStateTracker.PutObservation | Lcl.EventLog/Jobs/Database/EventStateTracker.cs:38-44 | an unknown id gets a default row (minimum version 0, enabled) among the updated rows; a known id keeps its row and nothing changes; the backing is untouched |
| Trackers.TaskTracker.constructor | Lcl.EventLog/Jobs/Database/TaskTracker.cs:26-31 | the existing rows form the backing map keyed by (event id, task id); nothing updated yet |
| Trackers.TaskTracker.Find | Lcl.EventLog/Jobs/Database/TaskTracker.cs:50-52 | an updated row under the pair when there is one, else the backing's row; a found row carries the pair |
| Trackers.TaskTracker.Description | Lcl.EventLog/Jobs/Database/TaskTracker.cs:58-61 | the found row's description, or null when no row is found |
| Trackers.TaskTracker.PutObservation | Lcl.EventLog/Jobs/Database/TaskTracker.cs:38-45 | the updated rows take the Revision under the pair when there is one; afterwards the pair is found with the given description, or the earlier one when that is null; the backing is untouched |
| Trackers.EventInfoTracker.constructor | Lcl.EventLog/Jobs/Database/EventInfoTracker.cs:22-28 | both trackers backed by the existing rows, with nothing updated |
| Trackers.EventInfoTracker.ShouldProcess | Lcl.EventLog/Jobs/Database/EventInfoTracker.cs:44-55 | true exactly when no state is known for the event, or its state is enabled and the version is at least its minimum |
| Trackers.EventInfoTracker.ObserveEvent | Lcl.EventLog/Jobs/Database/EventInfoTracker.cs:60-64 | both trackers record the observation; a known event keeps its ShouldProcess answers for every version, a new one then admits exactly the versions at or above 0; the backings are untouched |
| Insertion.ExtractDescription | Lcl.EventLog/Jobs/Database/EventInsertionLogic.cs:122-152 | a display name that throws is recorded as the empty string; otherwise the display name, null included, as given |
| Insertion.FailedLookupSettles | Lcl.EventLog/Jobs/Database/EventInsertionLogic.cs:122-136 | when the loader runs and its lookup throws, "" is stored, and a later observation no longer runs the loader |
| Insertion.NoBackfill | Lcl.EventLog/Jobs/Database/EventInsertionLogic.cs:117-118 | with the null loader of the XML path, only a missing row is written, and with no description |
| Insertion.HeaderOf | Lcl.EventLog/Jobs/Database/EventInsertionLogic.cs:78-86 | a header exactly when the record has a record id and a creation time of known kind: InvalidOperationException for a missing one, ArgumentException for an Unspecified kind; record id, epoch ticks of the creation time and the five ids, missing ones as 0 |
| Insertion.HeaderOfXml | Lcl.EventLog/Jobs/Database/EventInsertionLogic.cs:108-116 | a header exactly when the stamp's kind is known, carrying the XML fields' record id, epoch ticks and five ids |
| Insertion.EventInsertionLogic.Init | Lcl.EventLog/Jobs/Database/EventInsertionLogic.cs:28-36 | the logic holds the three given caches |
| Insertion.EventInsertionLogic.New | Lcl.EventLog/Jobs/Database/EventInsertionLogic.cs:28-36 | succeeds exactly when the provider rows are distinct, else InvalidOperationException; all three caches hold exactly the existing rows and nothing new |
| Insertion.EventInsertionLogic.FromDb | Lcl.EventLog/Jobs/Database/EventInsertionLogic.cs:41-47 | the three caches hold exactly the database's provider, task and operation rows and nothing new |
| Insertion.EventInsertionLogic.ResolveProvider | Lcl.EventLog/Jobs/Database/EventInsertionLogic.cs:71-78 | a known provider gives its id and changes nothing; an unknown one is observed and gets the next id, appended to NewlyAdded, unless that id is taken (InvalidOperationException); the id found afterwards indexes the same row |
| Insertion.EventInsertionLogic.RegisterKeys | Lcl.EventLog/Jobs/Database/EventInsertionLogic.cs:87-88 | the task and operation caches each take the loaded revision for the header's key, and both keys are found afterwards |
| Insertion.EventInsertionLogic.HeaderMade | Lcl.EventLog/Jobs/Database/EventInsertionLogic.cs:73-86 | with the provider cache in its state after ResolveProvider: InvalidOperationException when the provider is unknown, otherwise HeaderOf with its id |
| Insertion.EventInsertionLogic.HeaderMadeFromXml | Lcl.EventLog/Jobs/Database/EventInsertionLogic.cs:103-116 | the same with HeaderOfXml and the XML fields' provider |
| Insertion.EventInsertionLogic.MakeHeaderFromEventLogRecord | Lcl.EventLog/Jobs/Database/EventInsertionLogic.cs:69-90 | the result is HeaderMade: HeaderOf with the provider's id, or InvalidOperationException when the unknown provider's next id is taken; the provider cache steps as ResolveProvider says (ProviderStepped); on success the task and operation caches take the revisions their display-name loaders give, on failure their new rows are unchanged, and their backing stores never change (CachesStepped) |
| Insertion.EventInsertionLogic.MakeHeaderFromXml | Lcl.EventLog/Jobs/Database/EventInsertionLogic.cs:99-120 | as for a record, with HeaderMadeFromXml (HeaderOfXml) and loaders that give null, so known task and operation rows are never revised |
| ImportJobs.RecordedDescription | Lcl.EventLog/Jobs/Database/EventImportJob.cs:82-90 | a task display name that throws is recorded as null (unlike the V2 logic, which records ""); a shown name is recorded as given |
| ImportJobs.ProcessOutcome | Lcl.EventLog/Jobs/Database/EventImportJob.cs:95-105 | an event the state filter rejects returns false and leaves the tables alone; an admitted one goes through PutEvent: inserted when its record id is new or the mode is Replace, false for Ignore on a clash, a constraint violation for Default on a clash, ArgumentException for an Unspecified stamp, InvalidOperationException for an unknown mode; only an insertion changes the tables, and no event row is ever lost |
| ImportJobs.WithTrackerRows | Lcl.EventLog/Jobs/Database/EventImportJob.cs:191-201 | the emitted task and state rows replace the rows with their keys, every other row and all events are kept, and key-consistent tables stay key-consistent |
| ImportJobs.Seeded | Lcl.EventLog/Utilities/BackedMap.cs:44-51 | a key is found exactly when it was updated or is in the seed, and an update wins over the seed |
| ImportJobs.RecordStep | Lcl.EventLog/Jobs/Database/EventImportJob.cs:66-106 | a record without a record id or creation time is refused with ArgumentException before anything is observed; a failure leaves the tables unchanged; no event row is ever lost; the only errors are ArgumentException, InvalidOperationException and a constraint violation |
| ImportJobs.ImportBatch | Lcl.EventLog/Jobs/Database/RawEventDb.cs:248-262 | the count returned lies between the count so far and that count plus the records still to read |
| ImportJobs.ImportBatchKeepsEvents | Lcl.EventLog/Jobs/Database/RawEventDb.cs:248-262 | a batch of PutEvent steps loses no event row, and fails only with the errors a single record can raise |
| ImportJobs.BatchAdvance | Lcl.EventLog/Jobs/Database/RawEventDb.cs:252-261 | an error ends the batch with that error; the insertion that reaches the cap ends it with the count; otherwise the batch goes on with the next record and the count raised by one exactly when the record was inserted |
| ImportJobs.PutEventsResult | Lcl.EventLog/Jobs/Database/RawEventDb.cs:243-266 | the whole import keeps every event row and counts at most one insertion per record; its errors are those of PutEvent |
| ImportJobs.EventImportJob.constructor | Lcl.EventLog/Jobs/Database/EventImportJob.cs:32-50 | an open job over the given tables, nothing pending, conflict mode Default, trackers seeded with the stored states and tasks and nothing updated |
| ImportJobs.EventImportJob.ObserveAndPut | Lcl.EventLog/Jobs/Database/EventImportJob.cs:93-105 | the event is observed by both trackers even when it is not imported; the pending tables change as ProcessOutcome says, judged by the state found before observing; the stored tracker rows are untouched |
| ImportJobs.EventImportJob.ProcessRecord | Lcl.EventLog/Jobs/Database/EventImportJob.cs:66-106 | ObjectDisposedException on a disposed job; ArgumentException without a record id or creation time, with nothing observed and nothing pending changed; otherwise ObserveAndPut with task and version defaulting to 0 and the description RecordedDescription gives; no event row is lost |
| ImportJobs.EventImportJob.ProcessFields | Lcl.EventLog/Jobs/Database/EventImportJob.cs:114-164 | ObjectDisposedException on a disposed job with nothing changed; otherwise ObserveAndPut with the given fields |
| ImportJobs.EventImportJob.ProcessXml | Lcl.EventLog/Jobs/Database/EventImportJob.cs:177-182 | always an error: ObjectDisposedException on a disposed job, NotImplementedException otherwise |
| ImportJobs.EventImportJob.Commit | Lcl.EventLog/Jobs/Database/EventImportJob.cs:188-204 | ObjectDisposedException on a disposed job with nothing committed; otherwise the job ends disposed, and the committed tables are the pending ones, with the updated task and state rows written over them when emitTracker is set |
| ImportJobs.EventImportJob.EmitTasks | Lcl.EventLog/Jobs/Database/EventImportJob.cs:193-196 | every updated task row is written over the pending task table, the rest unchanged |
| ImportJobs.EventImportJob.EmitStates | Lcl.EventLog/Jobs/Database/EventImportJob.cs:197-200 | every updated state row is written over the pending state table, the rest unchanged |
| ImportJobs.EventImportJob.Dispose | Lcl.EventLog/Jobs/Database/EventImportJob.cs:209-216 | the job ends disposed and whatever was not committed is rolled back; a second Dispose changes nothing |
| ImportJobs.PutEvents | Lcl.EventLog/Jobs/Database/RawEventDb.cs:243-266 | equals PutEventsResult; the count is at most the records processed and at most max(cap, 1), and stopping before the end means the cap was reached; every event row is kept and the tables stay key-consistent |
| ImportJobs.ImportAll | Lcl.EventLog/Jobs/Database/RawEventDb.cs:252-262 | the loop over the records reaches the state and count ImportBatch defines, stops early only at the cap, and keeps every pending event row |
| ImportJobs.ImportRecord | Lcl.EventLog/Jobs/Database/RawEventDb.cs:254 | one ProcessEvent call moves the job as RecordStep says and leaves the stored tracker rows alone |
| ImportJobs.CommitResult | Lcl.EventLog/Jobs/Database/EventImportJob2.cs:48-65 | the commit succeeds exactly when every new provider can be inserted and no new task or operation row clashes with a stored one, else a constraint violation; on success the new rows are added and events are unchanged, and a valid store stays valid |
| ImportJobs.RevisedStoredRowBlocksCommit | Lcl.EventLog/Jobs/Database/EventImportJob2.cs:55-58 | a stored task row that the loader revised is among the new rows and makes the commit fail with a constraint violation |
| ImportJobs.InsertEachProvider | Lcl.EventLog/Jobs/Database/EventImportJob2.cs:51-54 | inserting the newly added providers one by one gives InsertProviders |
| ImportJobs.InsertNewRows | Lcl.EventLog/Jobs/Database/EventImportJob2.cs:55-62 | succeeds exactly when no new task or operation row clashes with a stored one, and then adds them all; otherwise a constraint violation |
| ImportJobs.CommitStore | Lcl.EventLog/Jobs/Database/EventImportJob2.cs:50-62 | the three insertion loops together give CommitResult, and keep the store valid |
| ImportJobs.LogicFromRows | Lcl.EventLog/Jobs/Database/EventImportJob2.cs:37-40 | the insertion logic is built from exactly the stored provider, task and operation rows, with nothing new |
| ImportJobs.EventImportJob2.constructor | Lcl.EventLog/Jobs/Database/EventImportJob2.cs:33-41 | an open job whose view and durable store are the database, and whose logic holds exactly its rows |
| ImportJobs.EventImportJob2.Write | Lcl.EventLog/Jobs/Database/EventImportJob2.cs:78 | a write lands in the transaction's view, and in the durable store only once the transaction is gone |
| ImportJobs.EventImportJob2.ProcessRecord | Lcl.EventLog/Jobs/Database/EventImportJob2.cs:70-83 | false exactly when the record id or creation time is missing or the XML is empty, changing nothing, caches included; otherwise the provider cache steps as ResolveProvider says and the task and operation caches as CachesStepped says for the header HeaderMade gives; true exactly when that header exists and InsertEvent accepts it with the XML, in which case exactly that XML and header are added; a header failure is passed on (InvalidOperationException when the new provider's id is taken); an existing record id is an error; a failure writes nothing to the tables |
| ImportJobs.EventImportJob2.ProcessXml | Lcl.EventLog/Jobs/Database/EventImportJob2.cs:88-98 | false exactly when the XML is empty; otherwise as ProcessRecord, with HeaderMadeFromXml of the dissected fields and loaders that give null |
| ImportJobs.EventImportJob2.Commit | Lcl.EventLog/Jobs/Database/EventImportJob2.cs:48-65 | ObjectDisposedException on a disposed job; otherwise it succeeds exactly when CommitResult does, and the job is then disposed with view and durable store both that result; a failed commit leaves the durable store and the job open |
| ImportJobs.EventImportJob2.Dispose | Lcl.EventLog/Jobs/Database/EventImportJob2.cs:108-115 | the job ends disposed and the view falls back to the durable store; a second Dispose changes nothing |
| RawEventDb.NewRawEventDb | Lcl.EventLog/Jobs/Database/RawEventDb.cs:30-40 | the handle is made exactly when creation is allowed or the file exists, else FileNotFoundException; it keeps the full name and both permissions |
| RawEventDb.ModeOf | Lcl.EventLog/Jobs/Database/RawEventDb.cs:87-99 | ReadWriteCreate exactly when create is set, ReadOnly exactly when neither create nor writable is set, ReadWrite otherwise |
| RawEventDb.Open | Lcl.EventLog/Jobs/Database/RawEventDb.cs:70-127 | opens exactly when the guards pass: create without writable is an ArgumentException, every other refusal (writing without AllowWrite, creating without AllowCreate, a missing file without create) an InvalidOperationException; the connection has ModeOf's mode and the requested flags, and a directory is ensured exactly when the file is missing |
| RawEventDb.OpenRespectsPermissions | Lcl.EventLog/Jobs/Database/RawEventDb.cs:77-86 | a connection that may write was allowed to write, and one that may create was allowed to create |
| RawEventDb.ConstructedOpensReadOnly | Lcl.EventLog/Jobs/Database/RawEventDb.cs:30-127 | a handle on an existing file can always be opened read-only, whatever its permissions |
| RawEventDb.InsertCommand | Lcl.EventLog/Jobs/Database/RawEventDb.cs:526-532 | each known conflict mode gives a statement starting with INSERT; an unknown mode is an InvalidOperationException |
| RawEventDb.PutEvent | Lcl.EventLog/Jobs/Database/RawEventDb.cs:524-544 | an unknown mode fails; Default fails with a constraint violation only on an existing record id; the count is 0 or 1; task and state tables never change; 1 means the row is stored as given, 0 means Ignore met an existing row and nothing changed; a new record id is always inserted, and Replace always inserts |
| RawEventDb.PutEventAt | Lcl.EventLog/Jobs/Database/RawEventDb.cs:551-555 | an Unspecified stamp is an ArgumentException; otherwise PutEvent with the stamp's epoch ticks |
| RawEventDb.IgnoreKeepsStored | Lcl.EventLog/Jobs/Database/RawEventDb.cs:530 | Ignore over an existing record id returns 0 and keeps the stored row |
| RawEventDb.PutEventTwice | Lcl.EventLog/Jobs/Database/RawEventDb.cs:526-543 | a second Default insert of the same record fails with a constraint violation, while a Replace gives the same tables and count as the first insert |
| RawEventDb.PutTask | Lcl.EventLog/Jobs/Database/RawEventDb.cs:328-335 | upsert: the (eid, task) row gets the description, every other row and table is unchanged, the count is 1 and key-consistent tables stay so |
| RawEventDb.PutEventState | Lcl.EventLog/Jobs/Database/RawEventDb.cs:281-287 | insert or replace: the eid's state row becomes the given one, every other row and table is unchanged, the count is 1 and key-consistent tables stay so |
| RawEventDb.ReadTasks | Lcl.EventLog/Jobs/Database/RawEventDb.cs:317-323 | the rows returned, keyed by (eid, task), are exactly the task table |
| RawEventDb.ReadEventStates | Lcl.EventLog/Jobs/Database/RawEventDb.cs:271-276 | the rows returned, keyed by eid, are exactly the state table |
| RawEventDb.Texts | Lcl.EventLog/Jobs/Database/RawEventDb.cs:400-402 | one condition text per condition |
| RawEventDb.AllHoldByMembership | Lcl.EventLog/Jobs/Database/RawEventDb.cs:377-404 | a condition list holding exactly the conditions of the non-null filters is satisfied by a row exactly when the row matches the filter |
| RawEventDb.FilterConditionsMembers | Lcl.EventLog/Jobs/Database/RawEventDb.cs:378-397 | a condition is listed exactly when its filter value is given |
| RawEventDb.FilterConditionsOrdered | Lcl.EventLog/Jobs/Database/RawEventDb.cs:378-397 | the conditions come in the fixed order rid >=, rid <=, eid =, ts >=, ts <= |
| RawEventDb.OrderedAppend | Lcl.EventLog/Jobs/Database/RawEventDb.cs:378-397 | appending a later-ranked condition keeps the list in rank order |
| RawEventDb.ReadEventsQuery | Lcl.EventLog/Jobs/Database/RawEventDb.cs:367-412 | the query has one condition per given filter value, in the fixed order, no condition at all exactly when no filter is given, and its conditions select exactly the rows matching the filter |
| RawEventDb.FilterConditionList | Lcl.EventLog/Jobs/Database/RawEventDb.cs:377-397 | the five ifs build exactly FilterConditions |
| RawEventDbV2.NewRawEventDbV2 | Lcl.EventLog/Jobs/Database/RawEventDbV2.cs:25-35 | the handle is made exactly when creation is allowed or the file exists, else FileNotFoundException; it keeps the full name and both permissions |
| RawEventDbV2.DbDirectory | Lcl.EventLog/Jobs/Database/RawEventDbV2.cs:45-54 | the directory part of the name when it is present and non-empty, else InvalidOperationException |
| RawEventDbV2.OpenV2 | Lcl.EventLog/Jobs/Database/RawEventDbV2.cs:79-132 | create without writable is an ArgumentException and every other refusal an InvalidOperationException; the connection has the ReadWriteCreate > ReadWrite > ReadOnly mode and the requested flags; a missing file makes it ensure DbDirectory |
| RawEventDbV2.OpenV2AgreesWithV1 | Lcl.EventLog/Jobs/Database/RawEventDbV2.cs:109-118 | the V2 open differs from the V1 open exactly when the V1 open would create a file whose directory part is empty (V2 then refuses, through DbDirectory); whenever V2 opens, V1 opens the same connection |
| RawEventDbV2.ConstructorsAgree | Lcl.EventLog/Jobs/Database/RawEventDbV2.cs:25-35 | the V2 constructor behaves exactly as the V1 one |
| OpenDbV2.InsertProviderInfoRow | Lcl.EventLog/Jobs/Database/OpenDbV2.cs:82-95 | succeeds exactly when neither the provider id nor the provider name is in use (primary key and UNIQUE(prvname)), adding exactly that row; else a constraint violation; a valid store stays valid |
| OpenDbV2.InsertKeyed | Lcl.EventLog/Jobs/Database/OpenDbV2.cs:125-142 | a row is inserted exactly when its unique key is free, and otherwise a constraint violation |
| OpenDbV2.InsertTaskInfoRow | Lcl.EventLog/Jobs/Database/OpenDbV2.cs:125-132 | succeeds exactly when no row has the same (eid, ever, task, prvid), adding exactly that row; else a constraint violation |
| OpenDbV2.InsertOperationInfoRow | Lcl.EventLog/Jobs/Database/OpenDbV2.cs:134-142 | succeeds exactly when no row has the same (eid, ever, task, opid, prvid), adding exactly that row; else a constraint violation |
| OpenDbV2.InsertEach | Lcl.EventLog/Jobs/Database/EventImportJob2.cs:55-62 | inserting every row one by one succeeds exactly when no key is taken, and then adds them all |
| OpenDbV2.InsertEvent | Lcl.EventLog/Jobs/Database/OpenDbV2.cs:144-157 | succeeds exactly when the record id is in neither the header nor the XML table, adding exactly the header and the XML under it and leaving the info tables alone; else a constraint violation |
| OpenDbV2.InsertProviders | Lcl.EventLog/Jobs/Database/EventImportJob2.cs:51-54 | on success the providers are those added in order and nothing else changes; a valid store stays valid; the only error is a constraint violation |
| OpenDbV2.AddRowsValid | Lcl.EventLog/Jobs/Database/OpenDbV2.cs:125-142 | adding key-consistent task and operation rows keeps the store valid |
| OpenDbV2.InsertProvidersPrefixFails | Lcl.EventLog/Jobs/Database/EventImportJob2.cs:51-54 | once one provider insertion fails, the whole sequence fails |
| OpenDbV2.InsertProvidersNextFails | Lcl.EventLog/Jobs/Database/EventImportJob2.cs:51-54 | a failure stays a failure when one more provider is inserted |
| OpenDbV2.AllProviderInfoRows | Lcl.EventLog/Jobs/Database/OpenDbV2.cs:97-105 | the rows read are exactly the provider table, each as stored, with no id twice |
| OpenDbV2.AllTaskInfoRows | Lcl.EventLog/Jobs/Database/EventImportJob2.cs:39 | the rows read, keyed, are exactly the task info table |
| OpenDbV2.AllOperationInfoRows | Lcl.EventLog/Jobs/Database/EventImportJob2.cs:40 | the rows read, keyed, are exactly the operation info table |
| ArchiveBuilders.FirstSelected | Lcl.EventLog/Jobs/Archival/ArchiveBuilder.cs:119-121 | the first header of the query (limit 1, ascending) is a stored header inside the record-id bounds and at or after tMin |
| ArchiveBuilders.FirstSelectedLeast | Lcl.EventLog/Jobs/Archival/ArchiveBuilder.cs:119-125 | over headers sorted by record id, nothing is found exactly when no header qualifies, and what is found has the least record id of those that do |
| ArchiveBuilders.LastSelected | Lcl.EventLog/Jobs/Archival/ArchiveBuilder.cs:147-155 | the first header of the reversed query is a stored header inside the record-id bounds |
| ArchiveBuilders.LastSelectedGreatest | Lcl.EventLog/Jobs/Archival/ArchiveBuilder.cs:147-155 | over sorted headers, nothing is found exactly when no header is inside the bounds, and what is found has the greatest record id of those that are |
| ArchiveBuilders.DateOf | Lcl.EventLog/Jobs/Archival/ArchiveBuilder.cs:127-129 | the calendar date of a stamp is a valid date whose day number is the stamp's whole days |
| ArchiveBuilders.NextMonth | Lcl.EventLog/Jobs/Archival/ArchiveBuilder.cs:133-134 | December rolls to January of the next year; every other month goes to the following month of the same year |
| ArchiveBuilders.MonthStart | Lcl.EventLog/Jobs/Archival/ArchiveBuilder.cs:135 | the first instant of a month exists exactly up to year 9999, else ArgumentOutOfRangeException, and is that day's number of days in ticks |
| ArchiveBuilders.Cutoff | Lcl.EventLog/Jobs/Archival/ArchiveBuilder.cs:133-136 | the cutoff after a December 9999 start is an ArgumentOutOfRangeException; every other start month has one |
| ArchiveBuilders.TailOf | Lcl.EventLog/Jobs/Archival/ArchiveBuilder.cs:131-173 | a tail found is a stored header at or after the start, and not past an explicit end; otherwise the stage stops with an error or with one of the two end messages |
| ArchiveBuilders.Conclude | Lcl.EventLog/Jobs/Archival/ArchiveBuilder.cs:181-199 | the range is the start and the tail; validation succeeds exactly when the archive fields check and neither the plain nor the .gz sealed name exists; archive info is set exactly when the fields check, and is valid; a refusal names an existing archive |
| ArchiveBuilders.SealedNameCompressed | Lcl.EventLog/Jobs/Archival/ArchiveBuilder.cs:187-192 | the compressed sealed name is the plain one with ".gz" appended |
| ArchiveBuilders.Resolve | Lcl.EventLog/Jobs/Archival/ArchiveBuilder.cs:118-199 | "no records at start" exactly when the first query finds nothing; otherwise the start is that record's id; any archive info is valid |
| ArchiveBuilders.QueryTail | Lcl.EventLog/Jobs/Archival/ArchiveBuilder.cs:130-173 | the imperative tail search gives TailOf |
| ArchiveBuilders.BeforeNextMonth | Lcl.EventLog/Jobs/Archival/ArchiveBuilder.cs:133-136 | every day of a month comes before the first day of the next month |
| ArchiveBuilders.StampBeforeCutoff | Lcl.EventLog/Jobs/Archival/ArchiveBuilder.cs:127-136 | a stamp lies before the cutoff computed from its own month |
| ArchiveBuilders.SameRidSameRow | Lcl.EventLog/Jobs/Archival/ArchiveBuilder.cs:119-121 | in a store sorted by record id, one record id names one header |
| ArchiveBuilders.StartSnaps | Lcl.EventLog/Jobs/Archival/ArchiveBuilder.cs:119-126 | RidStart snaps to the least existing record id inside the bounds; "no records at start" exactly when there is none |
| ArchiveBuilders.TailAlwaysFound | Lcl.EventLog/Jobs/Archival/ArchiveBuilder.cs:144-156 | once a start record exists, the tail query always finds a record (the promise in the comments at lines 149 and 155); the one exception is a start in December 9999, where the cutoff does not exist |
| ArchiveBuilders.AutomaticEndAtMonthBoundary | Lcl.EventLog/Jobs/Archival/ArchiveBuilder.cs:137-156 | without an explicit end, every record from the start to the tail is stamped before the cutoff, and past the tail a record stamped at or after the cutoff always comes first |
| ArchiveBuilders.StampedBeforeNext | Lcl.EventLog/Jobs/Archival/ArchiveBuilder.cs:141-156 | every record up to the tail lies before the cutoff |
| ArchiveBuilders.NextAfterTail | Lcl.EventLog/Jobs/Archival/ArchiveBuilder.cs:141-156 | every record past the tail is preceded, still past the tail, by one at or after the cutoff |
| ArchiveBuilders.ExplicitEndSnapsDown | Lcl.EventLog/Jobs/Archival/ArchiveBuilder.cs:164-172 | an explicit end snaps down to the greatest existing record id between the start and that end |
| ArchiveBuilders.NineRowsEndAtSix | Lcl.EventLog/Jobs/Archival/ArchiveBuilder.cs:141-156 | records 1-6 in one month and 7-9 in the next give the tail record 6 from start 1 |
| ArchiveBuilders.ValidatedArchive | Lcl.EventLog/Jobs/Archival/ArchiveBuilder.cs:174-199 | a successful validation has 1 <= start <= end, start and end records in the archive's month, year 2000-2099, the machine defaulting to the local one, a compressed archive, and neither sealed name existing |
| ArchiveBuilders.EndChecksNeverFire | Lcl.EventLog/Jobs/Archival/ArchiveBuilder.cs:160-170 | over sorted headers the "end before start" and "no records at end" returns are never reached, since RidStart already snapped inside the explicit end |
| ArchiveBuilders.ExistingArchiveRefused | Lcl.EventLog/Jobs/Archival/ArchiveBuilder.cs:187-196 | a validation that succeeds is refused, naming the file, once its plain or its .gz name exists |
| ArchiveBuilders.ConcludeRefuses | Lcl.EventLog/Jobs/Archival/ArchiveBuilder.cs:187-196 | the final checks refuse a plain or .gz name that already exists, naming it |
| ArchiveBuilders.ConcludeAnyListing | Lcl.EventLog/Jobs/Archival/ArchiveBuilder.cs:118-199 | the directory listing is consulted only by the final checks: with another listing validation reaches the same range and concludes there |
| ArchiveBuilders.ArchiveBuilder.constructor | Lcl.EventLog/Jobs/Archival/ArchiveBuilder.cs:38-46 | the builder keeps the machine, job, start and end given, not yet validated, not valid, without archive info |
| ArchiveBuilders.ArchiveBuilder.GetArchiveFile | Lcl.EventLog/Jobs/Archival/ArchiveBuilder.cs:92-100 | null exactly without archive info, otherwise the archive's sealed name, compressed or not |
| ArchiveBuilders.ArchiveBuilder.Validate | Lcl.EventLog/Jobs/Archival/ArchiveBuilder.cs:111-200 | a second call returns the earlier verdict and changes nothing; a first call marks the builder validated, sets RidStart, RidEnd and archive info as Resolve says, and makes it valid exactly when the outcome is success |
| ArchiveBuilders.ArchiveBuilder.Describe | Lcl.EventLog/Jobs/Archival/ArchiveBuilder.cs:181-199 | the final step sets archive info and validity as Conclude says, leaving the range alone |
| ArchiveBuilders.ArchiveBuilder.Build | Lcl.EventLog/Jobs/Archival/ArchiveBuilder.cs:202-215 | always an error: InvalidOperationException unless validated and valid, NotImplementedException past the guards |
| ArchiveBuilders.ValidateTwice | Lcl.EventLog/Jobs/Archival/ArchiveBuilder.cs:113-116 | a second Validate reports success exactly when the first did, and otherwise "earlier validation already failed" |

## Left out

- Common.Fold: case-insensitive comparison folds ASCII letters only, where `StringComparer.InvariantCultureIgnoreCase` (JobRegistry.cs:29-30) and `StringComparer.OrdinalIgnoreCase` (TransformRegistry.cs:27) also fold non-ASCII letters. `Common.EqualsIgnoreCase`, `JobRegistries.JobRegistry`, `FieldTransforms.Lookup`, `FieldTransforms.TransformRegistry` and the `ArchiveInfos` name matching inherit this. Culture-aware folding has no finite description here.
- JobConfig.CheckJobName: the pattern's `[a-z]` under `RegexOptions.IgnoreCase` (EventJobConfig.cs:41-42) is read as the ASCII letters of either case. .NET also matches U+212A KELVIN SIGN there, since it folds to 'k', so a name made of that sign alone passes the source's check and fails the model's. `JobConfig.CheckJobNameIntended` has the same gap.
- Utf8.Encode: Dafny strings hold Unicode scalar values, while a C# string may hold a lone UTF-16 surrogate, which `Encoding.UTF8` writes as EF BF BD and reads back as U+FFFD. So `Utf8.DecodeEncode`, `Tlob.WriterReadsBack` and `TextBlobStore.WriterReadsBack` hold only for text without lone surrogates.
- ArchiveInfos.ParseInt64: `Int64.Parse` with `NumberStyles.Integer` also accepts trailing NUL characters, which the model refuses like any other non-digit.
- XmlDissector.IndexDigits: `\d` is read as an ASCII digit, while .NET's `\d` matches any Unicode decimal digit. For "$X٠٧" the source's regex at Lcl.EventLog/Utilities/Xml/XmlDissector.cs:183 matches and `Int32.Parse` then throws FormatException, while the model treats the key as a data name.
- ArchiveInfos.ParseFields: the month-tag check `^\d{4}-\d{2}$` (ArchiveInfo.cs:222) uses ASCII digits only, so a tag with non-ASCII digits fails here with ArgumentException. The source passes the check and then fails in `Int32.Parse` with FormatException.
- TimeUtil.ParseDateTime: `\d` is ASCII-only (TimeUtil.cs:140, 169, 198). For non-ASCII digits the source's regex matches and `ParseExact` then throws, while the model reports no match.
- XmlConversions.AsInteger: `StartsWith("0x")` is culture-sensitive in .NET (XmlStringValueConversions.cs:33), and the model uses ordinal comparison. The same holds for `XmlConversions.AsUnsigned` (line 53), `FieldTransforms.UnsignedTransform` (TrxUnsigned.cs:38) and `XmlDissector.Eval` (XmlDissector.cs:58). For these ASCII prefixes, culture-aware comparison differs only for strings with ignorable characters.
- ImportJobs.EventImportJob2.Commit: a failed commit leaves the transaction's view and the durable store unchanged. In the source, the inserts made before the failing one stay in the open transaction (EventImportJob2.cs:50-61) until it is disposed. The model's Dispose discards the view in both cases, so only the state between the failure and Dispose differs.
- TextBlobStore.Reader.constructor: requires `maxBlobSize + 8` to be non-negative as a 32-bit sum. `TextBlobStore.NewReader` models the other case, in which the source throws OverflowException allocating the buffer (TextBlobStore.cs:159-163).
- Rows.EventStateRow and Rows.TaskRow: EventStateRow.cs and TaskRow.cs declare no key. The model keys them by event id and by (event id, task id), because EventStateTracker.cs:21-30 and TaskTracker.cs:21-30 look the rows up that way. The trackers' keyed maps rest on this assumption.
- RawEventDb.ReadTasks: returns the task table's rows in an order left open. The source orders them by eid, task (RawEventDb.cs:322).
- Tlob.TlobReader.Read: a stream hands out min(count, available, limit) bytes per read, with a fixed per-stream limit. A real stream (GZipStream in particular) may choose a different short count on every call. The round trips are proved for limits that cover every record. `Tlob.ShortPayloadRead` and `TextBlobStore.ShortReadStops` show that a shorter limit ends in the truncation error. The same holds for `TextBlobStore.Reader.ReadMore`.
- TaskInfoCache.FromDb and TaskInfoCache.Observe with a loader: the source of TaskInfoCache.cs lacks these members, which EventInsertionLogic.cs:45 and 87 call. They are assumed to behave like `OperationInfoCache.FromDb` and its loader variant of `Observe` (OperationInfoCache.cs:66-80).
- OpenDbV2.AllProviderInfoRows, AllTaskInfoRows, AllOperationInfoRows, InsertProviderInfoRow, InsertTaskInfoRow, InsertOperationInfoRow and InsertEvent: the source of these members is not available (called at EventImportJob2.cs:38-40, 53-61, 78). They are assumed to read a whole table, and to insert one row under the UNIQUE constraints of OpenDbV2.cs:118-157, failing with a constraint violation on a clash.
- ArchiveBuilders.FirstSelected and ArchiveBuilders.LastSelected: the source of `QueryEventHeaders` (ArchiveBuilder.cs:120, 142, 148, 154, 165) is not available. It is assumed to take inclusive record-id bounds and an optional lower stamp bound, and to return headers ascending, or descending when `reverse` is set, with `limit: 1` giving the first.
- TimeUtil: the `ParseDto` overloads (TimeUtil.cs:167-211) are not modelled. They build a `DateTimeOffset` from the same patterns as `ParseDateTime`, and the offset arithmetic is .NET library behaviour.
- The Gregorian calendar is an abstract `Calendar` with the properties the proofs need, and time zones are a `localToUtc` function parameter. .NET's `DateTime` and `TimeZoneInfo` are not modelled.
- SQL text, Dapper mapping and the SQLite engine are not modelled. Tables are maps keyed by their primary or UNIQUE keys, and a transaction is a pending copy of them. `EventTaskCounts`, `GetOverview`, the `Create*Table` DDL and the `ReadEvent*` result rows are left out.
- OS event-log access (EventRecordSource.cs) is left out: an event record is a datatype with optional record id, creation time, task and version, and a display name that may throw.
- The file system is left out. File existence is a set of names, a directory listing is a sequence of names, `Path.Combine` with the job folder is dropped, and `Path.GetFileName` splits on '/' and '\\' only. The GZip wrappers `FromFile`/`FromStream` are left out, since compression is a library stage.
- XPath evaluation, XML parsing, `LoadXml`, `StripDefaultNamespaces`, the `MapData` node walk and the `XmlDissector` constructors are left out. `Eval` rewrites the prefix and hands the XPath to an abstract evaluator.
- `AsGuid`, `AsStamp` and TrxStamp.cs rely on library date and GUID parsing, and are left out.
- Lazy enumeration (`IEnumerable` with `yield`) is modelled as whole sequences. `PutEvents` receives its records as a sequence, and `ReadAll` returns every record it reads.
- Concurrency: the code is single-threaded. It uses no floating point.

## Findings

| source | as written | input that shows it | evidently intended | confidence | as-written member | corrected member |
|---|---|---|---|---|---|---|
| Lcl.EventLog/Jobs/Archival/ArchiveInfo.cs:204 | `FromFileName` compares the last '.'-separated part with ".evarc", which can never hold a '.' | "m.j.archive.2024-01.-.evarc" is refused, and so is every other name, so `FindArchives` finds nothing | compare the last part with "evarc", so that every unsealed or sealed name this class builds reads back | not executed | ArchiveInfos.ArchiveInfo.FromFileName, ArchiveInfos.AsWrittenParseAlwaysFails, ArchiveInfos.AsWrittenFindsNothing | ArchiveInfos.ArchiveInfo.FromFileNameIntended, ArchiveInfos.UnsealedNameRoundTrip, ArchiveInfos.SealedNameRoundTrip |
| Lcl.EventLog/Jobs/EventJobConfig.cs:41 | the job-name regex is unanchored, so any name containing one letter is valid | "a.b" is accepted, and its archive names then have more than six '.'-separated parts, which the name parser refuses | anchor the pattern so the whole name is a letter followed by letters, digits, '-' and '_' | not executed | JobConfig.CheckJobName, JobConfig.AsWrittenAcceptsDottedName, ArchiveInfos.DottedJobNameUnreadable | JobConfig.CheckJobNameIntended, JobConfig.ValidJobNameCharacters |
| Lcl.EventLog/Utilities/TextBlobStore.cs:233 | when the buffer holds no STX, `MoveToNextRecord` stores the stale position -1 into the read pointer, and `FillBuffer` then keeps reporting data | the stream of one record "abc" yields "abc", and the next read indexes the buffer at -1 (IndexOutOfRangeException) instead of reporting the end | discard the buffered bytes and report the end of the stream once no STX remains | not executed | TextBlobStore.Reader.TryReadAsWritten, TextBlobStore.Reader.ReadAllAsWritten, TextBlobStore.ReadBackAsWritten, TextBlobStore.OneRecordAsWritten | TextBlobStore.Reader.TryReadIntended, TextBlobStore.Reader.ReadAllIntended, TextBlobStore.OneRecord |
