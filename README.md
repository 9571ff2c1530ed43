# Smart Image Moderation API — a Dafny model of its core

The service accepts an image over HTTP and hands it to a background worker.
The worker computes a moderation report (face count, OCR text, blur, a
skin-ratio NSFW score and a quality score), and the client polls for the
report by job id. Three files form the core:

- `POST /upload` (`upload_image`) checks the file name's extension. It then
  stores the bytes under a fresh uuid in `/app/uploads` and enqueues the
  analysis task.
- The Celery task `run_image_analysis` runs the pipeline. It turns any
  exception into a failure payload and is registered with an automatic retry
  policy.
- `process_image`:
  - rejects a missing file and an undecodable image;
  - scales the image down to at most 1280 pixels on its longer side;
  - counts the face detections above confidence 0.5 (`detect_faces`);
  - joins the OCR strings with spaces;
  - flags NSFW when the skin ratio exceeds 0.25;
  - clamps the quality score at 1.0.
- `GET /result/{task_id}` (`get_result`) maps the task state held by the
  result backend to a status payload.

Modules, one per concern:

- `Outcomes`:
  - `Option`;
  - `Completion`, which is a Python call that either returns or raises.
- `Json`: the dictionaries exchanged between worker, backend and client.
- `PosixPath`: `os.path.splitext`, `os.path.join` and ASCII `str.lower`. They
  are written out so that the extension rule can be proved about real
  Python behaviour: the last dot after the last slash, and a leading-dot
  name has no extension.
- `Processor`: `process_image` and its helpers.
  - OpenCV, EasyOCR and the file system are the function-valued fields of a
    `Vision` value.
  - `Vision.Valid()` states the properties of those libraries the pipeline
    relies on.
  - `detect_faces` is an imperative loop (`DetectFaces`), proved against the
    counting function `CountConfident`.
- `Tasks`:
  - the task wrapper;
  - the retry policy (`max_retries` 3, `countdown` 5, no backoff) as a
    function from per-attempt outcomes to a run;
  - the state a finished run leaves in the result backend.
- `Api`: the upload handler and the poll handler.
  - `UploadService` is a class holding the upload directory's files (a map)
    and the trace of observable steps:
    1. uuid generated;
    2. file written, or write failed;
    3. task enqueued, or enqueue failed.
  - Its invariant `Valid()` says every trace is well ordered: each step may
    follow the one before it, and every file the trace records as written
    is in the map.
  - `GetResult` is a pure function of the task state, the result and the
    info text. Two polls that see the same state therefore give the same
    answer by construction.

Every library call of the pipeline may raise, and its exception escapes
`process_image` to the task wrapper, as in the code; `cv2.resize` raises
exactly on an empty target size. The uuid, the success of `open`/`write`,
the outcome of `delay`, the task id, the elapsed time and every library
call are inputs of the model.

Two behaviours of the code worth knowing:

- An exception raised by `run_image_analysis.delay` is not caught in
  `upload_image` (backend/app/main.py:111). The client gets a 500, and the
  file already written stays in `/app/uploads`. `Upload` states this: the
  trace ends in `EnqueueFailed`, the reply is `InternalError`, and `files`
  holds the new file.
- `get_result` has no not-found answer. Celery reports an unknown id as
  `PENDING`, and the model answers `pending`.

## Model

| member | source | states |
|---|---|---|
| PosixPath.LastIndexOf | backend/app/main.py:95 | the `rfind` inside `splitext`: -1 or an index holding the character, with no occurrence after it |
| PosixPath.SplitExt | backend/app/main.py:95 | `os.path.splitext`: split at the last dot after the last slash when the component before that dot holds a non-dot character, else no extension; described by SplitExtShape, ExtensionIsSuffix and ExtensionShape |
| PosixPath.Extension | backend/app/main.py:95 | `splitext(p)[1]`; characterised from the end of the path, in both directions, by ExtensionIsSuffix and ExtensionShape |
| PosixPath.Lower | backend/app/main.py:95 | `str.lower` character by character through LowerChar; leaves an extension word unchanged (Api.LowerExtensionWord) |
| PosixPath.SplitExtShape | backend/app/main.py:95 | `splitext` splits a path into root + ext with nothing lost; a non-empty ext is a dot followed by characters that are neither dots nor slashes |
| PosixPath.ExtensionIsSuffix | backend/app/main.py:95 | a final dot, after which there is no dot or slash and before which the last path component holds a non-dot character, starts the extension |
| PosixPath.ExtensionShape | backend/app/main.py:95 | conversely, a non-empty extension is a suffix that starts with a dot, and the last component before it holds a non-dot character |
| PosixPath.LowerChar | backend/app/main.py:95 | lower-casing yields a lower-case ASCII letter exactly for ASCII letters, and a dot exactly for a dot |
| Api.UploadExtension | backend/app/main.py:95 | the lower-cased `splitext` extension of the file name; described by UploadExtensionIs |
| Api.IsAllowedUpload | backend/app/main.py:96 | the extension check; described in both directions by AcceptedIff |
| Api.UploadExtensionIs | backend/app/main.py:95-96 | for an extension made of a dot and lower-case letters, the lower-cased `splitext` extension equals it exactly when the name ends in it (in any case) after a component that is not only dots |
| Api.AcceptedIff | backend/app/main.py:95-100 | an upload is accepted if and only if its name ends, in any letter case, in `.jpg`, `.jpeg`, `.png` or `.webp` after a name that is not only dots |
| Api.AcceptedUpperCase | backend/app/main.py:95-96 | `X.JPG` is accepted, with extension `.jpg` |
| Api.AcceptedMixedCase | backend/app/main.py:95-96 | `holiday.photo.WebP` is accepted by its last extension `.webp` |
| Api.NamesWithoutExtension | backend/app/main.py:95-100 | `noext`, `.png` and `..png` have no extension and are rejected |
| Api.NamesWithOtherExtension | backend/app/main.py:95-100 | `scan.gif` has extension `.gif` and is rejected; `photo.png/` has none and is rejected |
| Api.ExtensionInDirectory | backend/app/main.py:103 | a file `name + ext` placed in a directory keeps `ext` as its extension when `name` has no slash and does not start with a dot |
| Api.IsUuid4Text | backend/app/main.py:102 | the text of `uuid.uuid4()`: 8-4-4-4-12 lower-case hex digits of version 4; StoredPathShape uses that it holds no slash and starts with a hex digit |
| Api.StoredPath | backend/app/main.py:103 | `os.path.join(UPLOAD_DIR, uuid + ext)`; its shape and extension are stated by StoredPathShape |
| Api.StoredPathShape | backend/app/main.py:102-103 | the stored path is `/app/uploads/` + uuid + ext, its own extension is ext, and it would itself be accepted |
| Api.EnqueueFollowsWrite | backend/app/main.py:102-111 | in every well-ordered trace, an enqueue attempt comes right after the successful write of its file, which comes right after the well-formed uuid that names it |
| Api.EnqueuedFilesWereWritten | backend/app/main.py:102-111 | every enqueued path was written just before, lies directly in `/app/uploads`, is named by the uuid and ends in an allowed extension |
| Api.UploadService.Upload | backend/app/main.py:93-116 | a rejected name gives 400 with no step taken; otherwise a uuid, a write (500 and no enqueue if it fails), then the enqueue; the reply is `processing` with the task id, or the escaping exception; the file map and trace change exactly so and stay valid |
| Api.GetResult | backend/app/main.py:119-147 | every answer is a dict whose `status` is a string |
| Api.StatusMeaning | backend/app/main.py:123-147 | for upper-case state names, `pending`/`running`/`success`/`failed` are read back to their states in both directions, and any other state is echoed as the status |
| Api.PayloadsOfAnswers | backend/app/main.py:123-147 | the whole answer for every state: `{"status": "pending"}` for PENDING, `{"status": "running"}` for STARTED, `{"status": "failed", "error": str(info)}` for FAILURE, a failed dict passed through verbatim or anything else wrapped as `{"status": "success", "result": …}` for SUCCESS, and `{"status": state}` for any other state, whatever its spelling |
| Api.PollAfterAnalysis | backend/app/main.py:135-145 | end to end: the poller sees a pipeline failure dict unchanged, an exception's text as a failure, and a report wrapped as a success; the task always settles in SUCCESS |
| Json.IsFailedPayload | backend/app/main.py:139 | `isinstance(result, dict) and result.get("status") == "failed"`; ErrorDict, RunImageAnalysis and AnalysisDict state which payloads satisfy it |
| Json.ErrorDict | backend/app/tasks.py:30-33 | `{"status": "failed", "error": e}` has exactly these two keys and is a failure payload |
| Tasks.RunImageAnalysis | backend/app/tasks.py:21-33 | a returned pipeline dict is passed through unchanged; an import or pipeline exception becomes the error dict; the result is a failure payload exactly when no successful report was produced |
| Tasks.Run | backend/app/tasks.py:7-12 | one job under the registered policy, the wrapped body on every attempt; SingleAttempt states that it is a single attempt |
| Tasks.RunAttempts | backend/app/tasks.py:7-12 | Celery autoretry: attempts stop at the first return or after `max_retries` retries; the outcome is the last attempt's; every earlier attempt raised; a raised outcome means all retries were used; one fixed `countdown` delay precedes each retry |
| Tasks.AlwaysRaisingExhaustsRetries | backend/app/tasks.py:10-11 | under the configured policy a body that always raises runs 4 times, with delays of 5, 5 and 5 seconds, and the last exception escapes |
| Tasks.SucceedsOnAttempt | backend/app/tasks.py:10-11 | a body that first returns on attempt k (k ≤ 4) runs exactly k times and yields that return |
| Tasks.SingleAttempt | backend/app/tasks.py:21-33 | because the wrapper catches every exception, each job runs exactly once, with no retry delay |
| Processor.ScaledSide | backend/app/ml/processor.py:105-106 | a side no longer than the longest scales to at most 1280, and the longest side scales to exactly 1280 |
| Processor.Prepare | backend/app/ml/processor.py:102-106 | images with longer side ≤ 1280 are untouched; larger ones are resized so the longer side becomes exactly 1280, and the result is non-empty |
| Processor.CountConfident | backend/app/ml/processor.py:61-65 | the count of confident detections never exceeds the number of detections |
| Processor.CountConfidentExtremes | backend/app/ml/processor.py:61-66 | the count equals the number of detections exactly when all are above 0.5, and is 0 exactly when none is |
| Processor.DetectFaces | backend/app/ml/processor.py:50-66 | the loop returns the number of detections with confidence strictly above 0.5, at most the number of detections; an exception of the face network is passed on |
| Processor.JoinSpace | backend/app/ml/processor.py:113 | `" ".join(words)`; described by JoinSpaceRoundTrip and JoinSpaceEmpty |
| Processor.OcrText | backend/app/ml/processor.py:112-113 | the OCR text is empty without hits, and otherwise, when no hit text holds a space, splits on spaces into the hit texts in order |
| Processor.JoinSpaceRoundTrip | backend/app/ml/processor.py:113 | splitting the joined OCR text on spaces gives back the recognised strings, in order, when they hold no spaces |
| Processor.JoinSpaceEmpty | backend/app/ml/processor.py:113 | the joined text is empty exactly when there is no OCR result or a single empty one |
| Processor.SkinRatio | backend/app/ml/processor.py:77 | a mask count not above the pixel total gives a ratio in [0, 1]; the ratio exceeds 0.25 exactly when four times the skin count exceeds the total |
| Processor.QualityScore | backend/app/ml/processor.py:123-124 | the score is at most 1.0, non-negative for a non-negative blur variance, and 1.0 exactly when the unclamped sum reaches 1.0 |
| Processor.ProcessImage | backend/app/ml/processor.py:83-143 | missing file → `Image not found`, then undecodable → `Invalid image`; the first exception of resize, face detection, OCR, blur or skin mask escapes, in that order; otherwise the report is built from the resized image, with nsfw ⇔ score > 0.25, score and quality in [0, 1], blur ≥ 0 |
| Processor.AnalysisDict | backend/app/ml/processor.py:126-143 | the returned dict always has `status` and `device`, and is a failure payload exactly for the two guarded failures |

## Left out

- The `health` and `root` handlers, the frontend and the Celery application
  configuration: they are network probes, UI code and runtime settings.
- The time limits (300 s hard, 270 s soft) and `task_track_started` are
  enforced by the Celery runtime. The `STARTED` state is an input of
  `GetResult`.
- `delay`, `AsyncResult` and the broker are Celery internals. The enqueue
  outcome and the task state are inputs.
- Processor.ProcessImage: `os.path.exists` and `cv2.imread` are taken never
  to raise (they answer false and None); which exceptions the library calls
  raise is not modelled, only that any of them may.
- Model loading, `blobFromImage`, `forward`, `cvtColor`, `inRange`,
  `Laplacian`, `readtext`, `imread` and `os.path.exists` are foreign calls.
  They are fields of `Vision`.
- Processor.DetectFaces: the 300×300 resize and the blob before the face
  network are part of the foreign `faceConfidences` call.
- Floating point:
  - Scores are exact reals.
  - `round(…, 2)` and `round(…, 3)` are not modelled.
  - `int(w * scale)` is the floor of an exact product.
- The wall-clock `processing_time` is an input (`elapsed`).
- PosixPath.Lower: lower-cases ASCII letters only. Non-ASCII characters
  that Python lower-cases never become one of the allowed extensions, so
  acceptance is unaffected.
- Api.UploadService.Upload:
  - the job id comes from the enqueue outcome and is not tied to the uuid,
    so the model does not state that the two differ;
  - a write that fails part-way, leaving a partial file, is modelled as
    leaving the file map unchanged;
  - the uuid is an input that is assumed well formed (`IsUuid4Text`); its
    freshness is not modelled.
- Api.StatusMeaning: assumes state names hold no lower-case letters (as
  Celery's do). A custom state spelled `pending` would be echoed and read
  as the Celery state.
- The OCR bounding box is left out; the confidence is kept but unused, as
  in the code.
- Concurrency: two uploads at once, and worker parallelism.
