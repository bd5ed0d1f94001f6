/** `FileUploadView.post`: every uploaded file is stored, given a document
    loader by its MIME type, and ingested; each file ends up either in
    `processed_files` or in `failed_files`. */
module Upload {
  import opened Wrappers
  import opened Embeddings
  import opened Ingestion

  datatype UploadedFile = UploadedFile(name: string, contentType: string)

  datatype LoaderKind = Pdf | Word | Excel | PowerPoint | Csv

  /** The MIME-type table of the loader chain; None for every other type. */
  function LoaderFor(contentType: string): Option<LoaderKind>
  {
    if contentType == "application/pdf" then Some(Pdf)
    else if contentType == "application/msword"
         || contentType == "application/vnd.openxmlformats-officedocument.wordprocessingml.document" then Some(Word)
    else if contentType == "application/vnd.openxmlformats-officedocument.spreadsheetml.sheet" then Some(Excel)
    else if contentType == "application/vnd.openxmlformats-officedocument.presentationml.presentation" then Some(PowerPoint)
    else if contentType == "text/csv" then Some(Csv)
    else None
  }

  const UnsupportedType: string := "Unsupported file type"

  /** The collaborators of the view: the index's dimension as
      `describe_index` reports it (None when that call raises), storing the
      upload (the message of the exception it raised, if any), loading the
      file with a loader and cutting it into chunk texts (the texts, or the
      message of the exception), and the embedding and upsert calls of
      ingestion. */
  datatype UploadServices = UploadServices(
    indexDimension: Option<int>,
    save: UploadedFile -> Option<string>,
    load: (LoaderKind, UploadedFile) -> Result<seq<string>, string>,
    embed: string -> Option<Embedding>,
    upsert: seq<VectorRecord> -> Option<string>)

  datatype FileResult = Processed | Failed(error: string)

  /** What happens to one file. The file is stored before its type is
      looked at, so an unsupported file is still stored, and a failed store
      reports its own message. */
  function FileOutcome(f: UploadedFile, svc: UploadServices): FileResult
  {
    match svc.save(f)
    case Some(error) => Failed(error)
    case None =>
      match LoaderFor(f.contentType)
      case None => Failed(UnsupportedType)
      case Some(kind) =>
        match svc.load(kind, f)
        case Err(error) => Failed(error)
        case Ok(texts) =>
          match Ingest(texts, svc.embed, svc.upsert)
          case Ingested(_) => Processed
          case IngestFailed(message, _) => Failed(message)
  }

  datatype FailedFile = FailedFile(file: string, error: string)

  /** What one file adds to `processed_files`. */
  function ProcessedEntry(f: UploadedFile, result: FileResult): seq<string>
  {
    if result.Processed? then [f.name] else []
  }

  /** What one file adds to `failed_files`. */
  function FailedEntry(f: UploadedFile, result: FileResult): seq<FailedFile>
  {
    if result.Failed? then [FailedFile(f.name, result.error)] else []
  }

  /** `processed_files`: the names of the processed files, in upload order. */
  function ProcessedNames(files: seq<UploadedFile>, svc: UploadServices): seq<string>
  {
    if files == [] then []
    else ProcessedEntry(files[0], FileOutcome(files[0], svc)) + ProcessedNames(files[1..], svc)
  }

  /** `failed_files`: each failed file with its error, in upload order. */
  function FailedFiles(files: seq<UploadedFile>, svc: UploadServices): seq<FailedFile>
  {
    if files == [] then []
    else FailedEntry(files[0], FileOutcome(files[0], svc)) + FailedFiles(files[1..], svc)
  }

  datatype UploadReply =
    | NoFiles                                                       // 400
    | IndexUnavailable                                              // 500: describe_index raised
    | DimensionMismatch                                             // 500
    | Completed(processed: seq<string>, failed: seq<FailedFile>)    // 200 or 500

  function Status(reply: UploadReply): int
  {
    match reply
    case NoFiles => 400
    case IndexUnavailable => 500
    case DimensionMismatch => 500
    case Completed(processed, _) => if processed != [] then 200 else 500
  }

  method UploadFiles(files: seq<UploadedFile>, svc: UploadServices) returns (reply: UploadReply)
    ensures files == [] ==> reply == NoFiles
    ensures files != [] && svc.indexDimension.None? ==> reply == IndexUnavailable
    ensures files != [] && svc.indexDimension.Some? && svc.indexDimension.value != VectorDimension
            ==> reply == DimensionMismatch
    ensures files != [] && svc.indexDimension == Some(VectorDimension)
            ==> reply == Completed(ProcessedNames(files, svc), FailedFiles(files, svc))
  {
    if files == [] {
      return NoFiles;
    }
    if svc.indexDimension.None? {
      return IndexUnavailable;
    }
    if svc.indexDimension.value != VectorDimension {
      return DimensionMismatch;
    }
    var processed, failed := ProcessEach(files, svc);
    reply := Completed(processed, failed);
  }

  /** The per-file loop: each outcome is appended to one of the two lists. */
  method ProcessEach(files: seq<UploadedFile>, svc: UploadServices)
    returns (processed: seq<string>, failed: seq<FailedFile>)
    ensures processed == ProcessedNames(files, svc) && failed == FailedFiles(files, svc)
  {
    processed, failed := [], [];
    var i := 0;
    while i < |files|
      invariant 0 <= i <= |files|
      invariant ProcessedNames(files, svc) == processed + ProcessedNames(files[i..], svc)
      invariant FailedFiles(files, svc) == failed + FailedFiles(files[i..], svc)
    {
      var f := files[i];
      var result := HandleFile(f, svc);
      ListsStep(files, i, svc, processed, failed, result);
      processed := processed + ProcessedEntry(f, result);
      failed := failed + FailedEntry(f, result);
      i := i + 1;
    }
    assert files[i..] == [];
  }

  lemma ListsStep(files: seq<UploadedFile>, i: nat, svc: UploadServices,
                   processed: seq<string>, failed: seq<FailedFile>, result: FileResult)
    requires i < |files| && result == FileOutcome(files[i], svc)
    requires ProcessedNames(files, svc) == processed + ProcessedNames(files[i..], svc)
    requires FailedFiles(files, svc) == failed + FailedFiles(files[i..], svc)
    ensures ProcessedNames(files, svc)
      == (processed + ProcessedEntry(files[i], result)) + ProcessedNames(files[i + 1..], svc)
    ensures FailedFiles(files, svc)
      == (failed + FailedEntry(files[i], result)) + FailedFiles(files[i + 1..], svc)
  {
    ListsUnfold(files[i..], svc, result);
    assert files[i..][1..] == files[i + 1..];
  }

  /** The two lists of a non-empty run of files: the first file's entry,
      then those of the rest. */
  lemma ListsUnfold(files: seq<UploadedFile>, svc: UploadServices, result: FileResult)
    requires files != [] && result == FileOutcome(files[0], svc)
    ensures ProcessedNames(files, svc) == ProcessedEntry(files[0], result) + ProcessedNames(files[1..], svc)
    ensures FailedFiles(files, svc) == FailedEntry(files[0], result) + FailedFiles(files[1..], svc)
  {
  }

  /** The body of the per-file loop, with its `try`/`except`. */
  method HandleFile(f: UploadedFile, svc: UploadServices) returns (result: FileResult)
    ensures result == FileOutcome(f, svc)
  {
    var saveError := svc.save(f);
    if saveError.Some? {
      return Failed(saveError.value);
    }
    var kind := LoaderFor(f.contentType);
    if kind.None? {
      return Failed(UnsupportedType);
    }
    var loaded := svc.load(kind.value, f);
    if loaded.Err? {
      return Failed(loaded.error);
    }
    var outcome := ProcessDocuments(loaded.value, svc.embed, svc.upsert);
    result := if outcome.Ingested? then Processed else Failed(outcome.message);
  }

  /** Every file lands in exactly one of the two lists: the processed names
      and the failed entries, taken together, number the files, and nothing
      is processed iff every file failed. */
  lemma {:induction false} EachFileListedOnce(files: seq<UploadedFile>, svc: UploadServices)
    ensures |ProcessedNames(files, svc)| + |FailedFiles(files, svc)| == |files|
    ensures |ProcessedNames(files, svc)| == |files| - |FailedFiles(files, svc)|
    ensures ProcessedNames(files, svc) == [] <==> forall i :: 0 <= i < |files| ==> FileOutcome(files[i], svc).Failed?
  {
    if files != [] {
      EachFileListedOnce(files[1..], svc);
      assert forall i :: 1 <= i < |files| ==> files[i] == files[1..][i - 1];
    }
  }

  /** A file whose type has no loader is reported as
      "Unsupported file type", unless storing it already failed. */
  lemma UnsupportedTypeReported(f: UploadedFile, svc: UploadServices)
    requires LoaderFor(f.contentType).None? && svc.save(f).None?
    ensures FailedFiles([f], svc) == [FailedFile(f.name, UnsupportedType)]
    ensures ProcessedNames([f], svc) == []
  {
  }

  /** The view answers 200 exactly when at least one file was processed. */
  lemma OkIffSomethingProcessed(files: seq<UploadedFile>, svc: UploadServices)
    requires files != [] && svc.indexDimension == Some(VectorDimension)
    ensures Status(Completed(ProcessedNames(files, svc), FailedFiles(files, svc))) == 200
            <==> exists i :: 0 <= i < |files| && FileOutcome(files[i], svc).Processed?
  {
    EachFileListedOnce(files, svc);
  }
}
