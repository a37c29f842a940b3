/*
 * Opening a V2 event database (Lcl.EventLog/Jobs/Database/RawEventDbV2.cs).
 * The guards are those of the V1 database; the directory of a missing file
 * comes from DbDirectory, which also rejects an empty directory name.
 */
module RawEventDbV2 {
  import opened Common
  import opened RawEventDb

  /** The constructor: without AllowCreate the database file must already exist. */
  function NewRawEventDbV2(fullName: string, allowWrite: bool, allowCreate: bool, fileExists: bool)
    : (r: Result<RawEventDbInfo>)
    ensures r.Ok? <==> allowCreate || fileExists
    ensures r.Err? ==> r.error == FileNotFound
    ensures r.Ok? ==> r.value == RawEventDbInfo(fullName, allowWrite, allowCreate)
  {
    if !allowCreate && !fileExists then Err(FileNotFound)
    else Ok(RawEventDbInfo(fullName, allowWrite, allowCreate))
  }

  /** DbDirectory: the directory part of the file name; null or empty is a "Bad db name". */
  function DbDirectory(fs: FileFacts): (r: Result<string>)
    ensures r.Ok? <==> fs.directory.Some? && fs.directory.value != ""
    ensures r.Err? ==> r.error == InvalidOperation
    ensures r.Ok? ==> r.value == fs.directory.value
  {
    if fs.directory.None? || fs.directory.value == "" then Err(InvalidOperation)
    else Ok(fs.directory.value)
  }

  /** Open: the V1 guards in the V1 order, then a missing file needs create and a usable DbDirectory. */
  function OpenV2(db: RawEventDbInfo, fs: FileFacts, writable: bool, create: bool): (r: Result<Connection>)
    ensures !writable && create ==> r == Err(ArgumentException)
    ensures r.Err? && (writable || !create) ==> r.error == InvalidOperation
    ensures r.Ok? ==> r.value.mode == ModeOf(writable, create)
                      && r.value.canWrite == writable && r.value.canCreate == create
    ensures r.Ok? ==> (r.value.ensuredDirectory.Some? <==> !fs.fileExists)
    ensures r.Ok? && !fs.fileExists ==> Ok(r.value.ensuredDirectory.value) == DbDirectory(fs)
  {
    if !writable && create then Err(ArgumentException)
    else if writable && !db.allowWrite then Err(InvalidOperation)
    else if create && !db.allowCreate then Err(InvalidOperation)
    else
      var mode := ModeOf(writable, create);
      if !fs.fileExists then
        if create then
          var dir :- DbDirectory(fs);
          Ok(Connection(mode, writable, create, Some(dir)))
        else Err(InvalidOperation)
      else Ok(Connection(mode, writable, create, None))
  }

  /**
   * The two databases open alike, except for a missing file whose directory
   * name is empty: V1 goes on to create it, V2 refuses.
   */
  lemma OpenV2AgreesWithV1(db: RawEventDbInfo, fs: FileFacts, writable: bool, create: bool)
    ensures OpenV2(db, fs, writable, create) != Open(db, fs, writable, create)
            <==> MayOpen(db, fs, writable, create) && !fs.fileExists && fs.directory == Some("")
    ensures OpenV2(db, fs, writable, create).Ok? ==> OpenV2(db, fs, writable, create) == Open(db, fs, writable, create)
  {
  }

  /** Both constructors accept and reject the same arguments and build the same value. */
  lemma ConstructorsAgree(fullName: string, allowWrite: bool, allowCreate: bool, fileExists: bool)
    ensures NewRawEventDbV2(fullName, allowWrite, allowCreate, fileExists)
            == NewRawEventDb(fullName, allowWrite, allowCreate, fileExists)
  {
  }
}
