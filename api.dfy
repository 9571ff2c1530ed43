/** The HTTP front end: `POST /upload` validates the file name, stores the
    bytes under a fresh uuid and enqueues the analysis task; `GET
    /result/{task_id}` turns the task state held by the result backend into
    a status payload. */
module Api {
  import opened Outcomes
  import opened Json
  import opened PosixPath
  import Processor
  import Tasks

  const UPLOAD_DIR := "/app/uploads"
  const ALLOWED_EXTENSIONS: set<string> := {".jpg", ".jpeg", ".png", ".webp"}

  const UNSUPPORTED_TYPE := "Unsupported file type. Use JPG, PNG, or WEBP."
  const SAVE_FAILED := "Failed to save uploaded file"

  // ---------------------------------------------------------------------
  // Upload validation and the stored path
  // ---------------------------------------------------------------------

  /** `os.path.splitext(filename)[1].lower()` */
  function UploadExtension(filename: string): string {
    Lower(Extension(filename))
  }

  predicate IsAllowedUpload(filename: string) {
    UploadExtension(filename) in ALLOWED_EXTENSIONS
  }

  /** A reference reading of the rule, from the end of the name: `filename`
      ends in `ext` up to letter case, and the last component of what comes
      before holds a character that is not a dot. */
  predicate EndsWithExtension(filename: string, ext: string) {
    var k := |filename| - |ext|;
    && 0 <= k
    && Lower(filename[k..]) == ext
    && HasName(filename[..k])
  }

  /** A dot followed by lower-case ASCII letters, as every allowed extension is. */
  predicate IsExtensionWord(ext: string) {
    |ext| >= 2 && ext[0] == '.' && forall i :: 1 <= i < |ext| ==> 'a' <= ext[i] <= 'z'
  }

  lemma {:induction false} UploadExtensionIs(filename: string, ext: string)
    requires IsExtensionWord(ext)
    ensures UploadExtension(filename) == ext <==> EndsWithExtension(filename, ext)
  {
    var k := |filename| - |ext|;
    if UploadExtension(filename) == ext {
      ExtensionShape(filename);
    }
    if EndsWithExtension(filename, ext) {
      var tail := filename[k..];
      assert Lower(tail)[0] == ext[0];
      assert LowerChar(tail[0]) == '.';
      forall i | k < i < |filename|
        ensures filename[i] != '.' && filename[i] != '/'
      {
        assert Lower(tail)[i - k] == ext[i - k] && 'a' <= ext[i - k] <= 'z';
        assert 'a' <= LowerChar(tail[i - k]) <= 'z';
      }
      ExtensionIsSuffix(filename, k);
    }
  }

  /** An upload is accepted exactly when its name ends, in any letter case,
      in one of the four extensions after a final component that is not
      only dots. */
  lemma AcceptedIff(filename: string)
    ensures IsAllowedUpload(filename) <==>
      || EndsWithExtension(filename, ".jpg")
      || EndsWithExtension(filename, ".jpeg")
      || EndsWithExtension(filename, ".png")
      || EndsWithExtension(filename, ".webp")
  {
    var e := UploadExtension(filename);
    assert IsAllowedUpload(filename) <==> e == ".jpg" || e == ".jpeg" || e == ".png" || e == ".webp";
    UploadExtensionIs(filename, ".jpg");
    UploadExtensionIs(filename, ".jpeg");
    UploadExtensionIs(filename, ".png");
    UploadExtensionIs(filename, ".webp");
  }

  /** A name the handler accepts with its extension in capitals. */
  lemma AcceptedUpperCase()
    ensures IsAllowedUpload("X.JPG") && UploadExtension("X.JPG") == ".jpg"
  {
    assert "X.JPG"[..1] == "X";
    assert HasName("X") by { assert LastIndexOf("X", '/') == -1; assert "X"[0] != '.'; }
    ExtensionIsSuffix("X.JPG", 1);
    assert "X.JPG"[1..] == ".JPG";
    assert Lower(".JPG") == ".jpg";
  }

  /** A name with several dots the handler accepts by its last, mixed-case
      extension. */
  lemma AcceptedMixedCase()
    ensures IsAllowedUpload("holiday.photo.WebP") && UploadExtension("holiday.photo.WebP") == ".webp"
  {
    var f := "holiday.photo.WebP";
    assert f[..13] == "holiday.photo";
    assert HasName(f[..13]) by { assert LastIndexOf("holiday.photo", '/') == -1; assert f[0] != '.'; }
    ExtensionIsSuffix(f, 13);
    assert f[13..] == ".WebP";
    assert Lower(".WebP") == ".webp";
  }

  /** Names the handler rejects because they have no extension at all:
      none is written, or the only dots of the name lead it. */
  lemma NamesWithoutExtension()
    ensures Extension("noext") == "" && !IsAllowedUpload("noext")
    ensures Extension(".png") == "" && !IsAllowedUpload(".png")
    ensures Extension("..png") == "" && !IsAllowedUpload("..png")
  {
    assert !HasNonDot(".png", 0, 0);
    assert !HasNonDot("..png", 0, 1) by { assert "..png"[0] == '.'; }
  }

  /** Names the handler rejects although they have an extension. */
  lemma NamesWithOtherExtension()
    ensures UploadExtension("scan.gif") == ".gif" && !IsAllowedUpload("scan.gif")
    ensures Extension("photo.png/") == "" && !IsAllowedUpload("photo.png/")
  {
    assert "scan.gif"[..4] == "scan";
    assert HasName("scan") by { assert LastIndexOf("scan", '/') == -1; assert "scan"[0] != '.'; }
    ExtensionIsSuffix("scan.gif", 4);
    assert "scan.gif"[4..] == ".gif";
  }

  predicate IsHexDigit(c: char) {
    '0' <= c <= '9' || 'a' <= c <= 'f'
  }

  /** `str(uuid.uuid4())`: 8-4-4-4-12 lower-case hex digits, version 4. */
  predicate IsUuid4Text(u: string) {
    && |u| == 36
    && (forall i :: 0 <= i < 36 ==> if i == 8 || i == 13 || i == 18 || i == 23 then u[i] == '-' else IsHexDigit(u[i]))
    && u[14] == '4'
    && u[19] in "89ab"
  }

  /** `os.path.join(UPLOAD_DIR, f"{uuid}{ext}")` */
  function StoredPath(uuid: string, ext: string): string {
    Join(UPLOAD_DIR, uuid + ext)
  }

  /** Lower-casing leaves an extension word as it is. */
  lemma LowerExtensionWord(ext: string)
    requires IsExtensionWord(ext)
    ensures Lower(ext) == ext
  {
    forall i | 0 <= i < |ext| ensures Lower(ext)[i] == ext[i] {
      if i > 0 { assert 'a' <= ext[i] <= 'z'; }
    }
  }

  /** A file named `name + ext` inside directory `dir` has extension `ext`
      when `name` is a non-empty name without slashes that does not start
      with a dot. */
  lemma {:induction false} ExtensionInDirectory(dir: string, name: string, ext: string)
    requires |name| > 0 && name[0] != '.' && '/' !in name
    requires IsExtensionWord(ext)
    ensures Extension(dir + "/" + name + ext) == ext
  {
    var path := dir + "/" + name + ext;
    var k := |dir| + 1 + |name|;
    var stem := path[..k];
    assert stem == dir + "/" + name;
    assert path[k..] == ext;
    forall i | k < i < |path| ensures path[i] != '.' && path[i] != '/' {
      assert path[i] == ext[i - k];
    }
    assert LastIndexOf(stem, '/') == |dir| by {
      assert stem[|dir|] == '/';
      forall j | |dir| < j < |stem| ensures stem[j] != '/' {
        assert stem[j] == name[j - |dir| - 1];
      }
    }
    assert stem[|dir| + 1] == name[0];
    assert HasName(stem);
    ExtensionIsSuffix(path, k);
  }

  lemma AllowedAreExtensionWords(ext: string)
    requires ext in ALLOWED_EXTENSIONS
    ensures IsExtensionWord(ext)
  {
  }

  /** The stored file lies directly in UPLOAD_DIR, is named by the uuid,
      and its own extension is the allowed one the upload was accepted
      with, so it would itself be accepted. */
  lemma StoredPathShape(uuid: string, ext: string)
    requires IsUuid4Text(uuid) && ext in ALLOWED_EXTENSIONS
    ensures StoredPath(uuid, ext) == UPLOAD_DIR + "/" + uuid + ext
    ensures Extension(StoredPath(uuid, ext)) == ext
    ensures IsAllowedUpload(StoredPath(uuid, ext))
  {
    assert (uuid + ext)[0] == uuid[0];
    assert StoredPath(uuid, ext) == UPLOAD_DIR + "/" + (uuid + ext);
    assert UPLOAD_DIR + "/" + (uuid + ext) == UPLOAD_DIR + "/" + uuid + ext;
    assert '/' !in uuid by {
      forall i | 0 <= i < |uuid| ensures uuid[i] != '/' {
        assert uuid[i] == '-' || IsHexDigit(uuid[i]);
      }
    }
    assert uuid[0] != '.' by { assert IsHexDigit(uuid[0]); }
    AllowedAreExtensionWords(ext);
    ExtensionInDirectory(UPLOAD_DIR, uuid, ext);
    LowerExtensionWord(ext);
  }

  // ---------------------------------------------------------------------
  // The upload handler
  // ---------------------------------------------------------------------

  /** The observable steps of the handler, in the order they happen. */
  datatype Event =
    | UuidGenerated(uuid: string)
    | FileWritten(path: string)
    | WriteFailed(path: string)
    | Enqueued(path: string, taskId: string)
    | EnqueueFailed(path: string, error: string)

  /** What the client receives: the upload response, an `HTTPException`,
      or the 500 FastAPI sends when an exception escapes the handler. */
  datatype UploadReply =
    | Accepted(jobId: string, status: string)
    | HttpError(code: nat, detail: string)
    | InternalError(error: string)

  /** Whether event `e` may come right after `prev` (None at the start):
      a uuid is well formed; a write attempt follows the generation of the
      uuid naming its file, in UPLOAD_DIR with an allowed extension; an
      enqueue attempt follows the successful write of the file it hands on. */
  ghost predicate MayFollow(prev: Option<Event>, e: Event) {
    match e
    case UuidGenerated(u) => IsUuid4Text(u)
    case FileWritten(p) => NamedByLastUuid(prev, p)
    case WriteFailed(p) => NamedByLastUuid(prev, p)
    case Enqueued(p, _) => prev == Some(FileWritten(p))
    case EnqueueFailed(p, _) => prev == Some(FileWritten(p))
  }

  ghost predicate NamedByLastUuid(prev: Option<Event>, path: string) {
    && prev.Some? && prev.value.UuidGenerated?
    && IsStoredPathOf(prev.value.uuid, path)
  }

  /** `path` is where the handler stores an upload named by `uuid`. */
  ghost predicate IsStoredPathOf(uuid: string, path: string) {
    exists ext :: ext in ALLOWED_EXTENSIONS && path == StoredPath(uuid, ext)
  }

  function Last(trace: seq<Event>): Option<Event> {
    if trace == [] then None else Some(trace[|trace| - 1])
  }

  /** The event before position `i`, if any. */
  function Prev(trace: seq<Event>, i: nat): Option<Event>
    requires i <= |trace|
  {
    if i == 0 then None else Some(trace[i - 1])
  }

  /** Every event of the trace may follow the one before it. */
  ghost predicate WellOrdered(trace: seq<Event>) {
    forall i {:trigger Prev(trace, i)} :: 0 <= i < |trace| ==> MayFollow(Prev(trace, i), trace[i])
  }

  lemma Extend(trace: seq<Event>, e: Event)
    requires WellOrdered(trace) && MayFollow(Last(trace), e)
    ensures WellOrdered(trace + [e])
  {
    var t := trace + [e];
    forall i | 0 <= i < |t| ensures MayFollow(Prev(t, i), t[i]) {
      if i < |trace| {
        assert Prev(t, i) == Prev(trace, i) && t[i] == trace[i];
      } else {
        assert Prev(t, i) == Last(trace);
      }
    }
  }

  /** In a well-ordered trace an enqueue attempt comes right after the
      write of its file, which comes right after the uuid naming it. */
  lemma EnqueueFollowsWrite(trace: seq<Event>, i: nat)
    requires WellOrdered(trace)
    requires i < |trace| && (trace[i].Enqueued? || trace[i].EnqueueFailed?)
    ensures 2 <= i && trace[i - 1] == FileWritten(trace[i].path) && trace[i - 2].UuidGenerated?
    ensures IsUuid4Text(trace[i - 2].uuid)
    ensures IsStoredPathOf(trace[i - 2].uuid, trace[i].path)
  {
    assert MayFollow(Prev(trace, i), trace[i]);
    assert MayFollow(Prev(trace, i - 1), trace[i - 1]);
    assert MayFollow(Prev(trace, i - 2), trace[i - 2]);
  }

  /** In any well-ordered trace, a task is only ever enqueued for a file
      that was written right before, under a fresh uuid, in UPLOAD_DIR, with
      a name that is itself an allowed upload. */
  lemma EnqueuedFilesWereWritten(trace: seq<Event>, i: nat)
    requires WellOrdered(trace)
    requires i < |trace| && trace[i].Enqueued?
    ensures 2 <= i && trace[i - 1] == FileWritten(trace[i].path) && trace[i - 2].UuidGenerated?
    ensures trace[i].path == UPLOAD_DIR + "/" + trace[i - 2].uuid + Extension(trace[i].path)
    ensures IsAllowedUpload(trace[i].path)
  {
    EnqueueFollowsWrite(trace, i);
    var path, uuid := trace[i].path, trace[i - 2].uuid;
    var ext :| ext in ALLOWED_EXTENSIONS && path == StoredPath(uuid, ext);
    StoredPathShape(uuid, ext);
  }

  /** Every file the trace records as written is on disk. */
  ghost predicate WrittenFilesKept(trace: seq<Event>, files: map<string, seq<bv8>>) {
    forall i :: 0 <= i < |trace| && trace[i].FileWritten? ==> trace[i].path in files
  }

  lemma KeepFiles(trace: seq<Event>, files: map<string, seq<bv8>>, e: Event)
    requires WrittenFilesKept(trace, files)
    requires e.FileWritten? ==> e.path in files
    ensures WrittenFilesKept(trace + [e], files)
  {
    var t := trace + [e];
    forall i | 0 <= i < |t| && t[i].FileWritten? ensures t[i].path in files {
      if i < |trace| { assert t[i] == trace[i]; }
    }
  }

  /** Writing a file keeps every file the trace records. */
  lemma KeepFilesOnWrite(trace: seq<Event>, files: map<string, seq<bv8>>, path: string, content: seq<bv8>)
    requires WrittenFilesKept(trace, files)
    ensures WrittenFilesKept(trace, files[path := content])
  {
  }

  class UploadService {
    /** The files under UPLOAD_DIR, by path. */
    var files: map<string, seq<bv8>>
    /** Every step taken so far, across all uploads. */
    var trace: seq<Event>

    ghost predicate Valid()
      reads this
    {
      WellOrdered(trace) && WrittenFilesKept(trace, files)
    }

    constructor ()
      ensures Valid() && files == map[] && trace == []
    {
      files := map[];
      trace := [];
    }

    /** `upload_image`. The environment's choices are parameters: `uuid` is
        what `uuid.uuid4()` returns, `writeOk` whether reading the body and
        writing the file succeed, and `delay` how
        `run_image_analysis.delay(file_path)` ends (the task id, or the
        broker's exception). */
    method Upload(filename: string, content: seq<bv8>, uuid: string, writeOk: bool, delay: Completion<string>)
      returns (reply: UploadReply)
      requires Valid() && IsUuid4Text(uuid)
      modifies this
      ensures Valid()
      ensures !IsAllowedUpload(filename) ==>
        reply == HttpError(400, UNSUPPORTED_TYPE) && trace == old(trace) && files == old(files)
      ensures IsAllowedUpload(filename) ==>
        var path := StoredPath(uuid, UploadExtension(filename));
        && (!writeOk ==>
              && reply == HttpError(500, SAVE_FAILED)
              && trace == old(trace) + [UuidGenerated(uuid)] + [WriteFailed(path)]
              && files == old(files))
        && (writeOk ==> files == old(files)[path := content])
        && (writeOk && delay.Returned? ==>
              && reply == Accepted(delay.value, "processing")
              && trace == old(trace) + [UuidGenerated(uuid)] + [FileWritten(path)] + [Enqueued(path, delay.value)])
        && (writeOk && delay.Raised? ==>
              && reply == InternalError(delay.error)
              && trace == old(trace) + [UuidGenerated(uuid)] + [FileWritten(path)] + [EnqueueFailed(path, delay.error)])
      ensures reply.Accepted? ==> reply.status == "processing" && delay == Returned(reply.jobId)
    {
      var ext := UploadExtension(filename);
      if ext !in ALLOWED_EXTENSIONS {
        return HttpError(400, UNSUPPORTED_TYPE);
      }
      var path := StoredPath(uuid, ext);
      Record(UuidGenerated(uuid));
      assert IsStoredPathOf(uuid, path);
      if !writeOk {
        Record(WriteFailed(path));
        return HttpError(500, SAVE_FAILED);
      }
      KeepFilesOnWrite(trace, files, path, content);
      files := files[path := content];
      Record(FileWritten(path));
      match delay {
        case Returned(taskId) =>
          Record(Enqueued(path, taskId));
          reply := Accepted(taskId, "processing");
        case Raised(e) =>
          Record(EnqueueFailed(path, e));
          reply := InternalError(e);
      }
    }

    /** Appends one step to the trace. */
    method Record(e: Event)
      requires WellOrdered(trace) && WrittenFilesKept(trace, files)
      requires MayFollow(Last(trace), e) && (e.FileWritten? ==> e.path in files)
      modifies this
      ensures Valid() && trace == old(trace) + [e] && files == old(files)
    {
      Extend(trace, e);
      KeepFiles(trace, files, e);
      trace := trace + [e];
    }
  }

  // ---------------------------------------------------------------------
  // Polling
  // ---------------------------------------------------------------------

  /** `get_result`: `state` is `AsyncResult(task_id).state`, `result` its
      `.result` and `info` the text `str(.info)`. Celery reports an unknown
      id as PENDING, so there is no separate not-found answer. */
  function GetResult(state: string, result: Value, info: string): (r: Value)
    ensures r.Dict? && "status" in r.fields && r.fields["status"].Str?
  {
    if state == "PENDING" then Dict(map["status" := Str("pending")])
    else if state == "STARTED" then Dict(map["status" := Str("running")])
    else if state == "FAILURE" then ErrorDict(info)
    else if state == "SUCCESS" then
      if IsFailedPayload(result) then result
      else Dict(map["status" := Str("success"), "result" := result])
    else Dict(map["status" := Str(state)])
  }

  function Status(r: Value): string
    requires r.Dict? && "status" in r.fields && r.fields["status"].Str?
  {
    r.fields["status"].s
  }

  /** Celery state names are upper-case. */
  predicate IsStateName(state: string) {
    forall i :: 0 <= i < |state| ==> !('a' <= state[i] <= 'z')
  }

  /** What a poller can conclude from the status it reads, in both
      directions, for every state name the backend can hold. */
  lemma StatusMeaning(state: string, result: Value, info: string)
    requires IsStateName(state)
    ensures var r := GetResult(state, result, info);
      && (Status(r) == "pending" <==> state == "PENDING")
      && (Status(r) == "running" <==> state == "STARTED")
      && (Status(r) == "success" <==> state == "SUCCESS" && !IsFailedPayload(result))
      && (Status(r) == "failed" <==> state == "FAILURE" || (state == "SUCCESS" && IsFailedPayload(result)))
      && (state !in {"PENDING", "STARTED", "FAILURE", "SUCCESS"} ==> r == Dict(map["status" := Str(state)]))
  {
    var r := GetResult(state, result, info);
    if state !in {"PENDING", "STARTED", "FAILURE", "SUCCESS"} {
      assert Status(r) == state;
      if |state| > 0 { assert !('a' <= state[0] <= 'z'); }
      assert state != "pending" && state != "running" && state != "success" && state != "failed" by {
        if |state| > 0 { assert !('a' <= state[0] <= 'z'); }
      }
    }
  }

  /** The whole answer for every state, whatever its spelling. */
  lemma PayloadsOfAnswers(state: string, result: Value, info: string)
    ensures state == "PENDING" ==> GetResult(state, result, info) == Dict(map["status" := Str("pending")])
    ensures state == "STARTED" ==> GetResult(state, result, info) == Dict(map["status" := Str("running")])
    ensures state == "FAILURE" ==> GetResult(state, result, info) == ErrorDict(info)
    ensures state == "SUCCESS" && IsFailedPayload(result) ==> GetResult(state, result, info) == result
    ensures state == "SUCCESS" && !IsFailedPayload(result) ==>
      GetResult(state, result, info) == Dict(map["status" := Str("success"), "result" := result])
    ensures state !in {"PENDING", "STARTED", "FAILURE", "SUCCESS"} ==>
      GetResult(state, result, info) == Dict(map["status" := Str(state)])
  {
  }

  /** From the pipeline to the poller: whatever the first (and only)
      attempt of the analysis does, the poller that reads the finished task
      sees the pipeline's failure payload unchanged, an exception's text as
      a failure, or the report wrapped as a success. */
  lemma PollAfterAnalysis(importError: Option<string>, pipeline: nat -> Completion<Processor.Analysis>)
    ensures var s := Tasks.Settled(Tasks.Run(importError, pipeline));
      var r := GetResult(s.state, s.result, s.info);
      && s.state == "SUCCESS"
      && (importError.Some? ==> r == ErrorDict(importError.value))
      && (importError.None? && pipeline(0).Raised? ==> r == ErrorDict(pipeline(0).error))
      && (importError.None? && pipeline(0).Returned? && pipeline(0).value.Failed? ==>
            r == Processor.AnalysisDict(pipeline(0).value))
      && (importError.None? && pipeline(0).Returned? && pipeline(0).value.Succeeded? ==>
            r == Dict(map["status" := Str("success"), "result" := Processor.AnalysisDict(pipeline(0).value)]))
  {
    Tasks.SingleAttempt(importError, pipeline);
  }
}
