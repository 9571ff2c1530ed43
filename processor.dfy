/** The analysis pipeline run by a worker: guards for a missing or
    undecodable image, the resize bound, face counting, text extraction,
    blur, skin-ratio and quality scores. OpenCV, EasyOCR and the file
    system are foreign: they appear as the fields of a `Vision` value. */
module Processor {
  import opened Outcomes
  import opened Json

  const DEVICE := "cpu"
  const MAX_DIM: nat := 1280
  const FACE_CONFIDENCE: real := 0.5
  const NSFW_THRESHOLD: real := 0.25

  /** A decoded image: its shape and an opaque stand-in for its pixels. */
  datatype Image = Image(height: nat, width: nat, pixels: nat)

  /** One EasyOCR hit: its text and confidence; the bounding box is not
      modelled. */
  datatype OcrHit = OcrHit(text: string, confidence: real)

  /** The foreign calls of the pipeline, as functions of their inputs. */
  datatype Vision = Vision(
    pathExists: string -> bool,                  // os.path.exists
    imread: string -> Option<Image>,             // cv2.imread, None when undecodable
    resize: (Image, nat, nat) -> Completion<Image>, // cv2.resize(image, (width, height))
    faceConfidences: Image -> Completion<seq<real>>,  // detections[0, 0, i, 2] of the DNN face detector
    readText: Image -> Completion<seq<OcrHit>>,       // reader.readtext
    laplacianVariance: Image -> Completion<real>,     // cv2.Laplacian(gray, CV_64F).var()
    skinPixels: Image -> Completion<nat>)             // np.sum(inRange(hsv, ...) > 0)
  {
    /** What the pipeline relies on from these libraries: decoded images
        are non-empty, `cv2.resize` yields the requested shape and fails on
        an empty one, a computed variance is non-negative and a mask never
        has more set pixels than the image has pixels. Any of the analysis
        calls may raise. */
    ghost predicate Valid() {
      && (forall p :: imread(p).Some? ==> imread(p).value.height > 0 && imread(p).value.width > 0)
      && (forall img, w, h :: resize(img, w, h).Raised? <==> (w == 0 || h == 0))
      && (forall img, w, h :: resize(img, w, h).Returned? ==>
            resize(img, w, h).value.width == w && resize(img, w, h).value.height == h)
      && (forall img :: laplacianVariance(img).Returned? ==> laplacianVariance(img).value >= 0.0)
      && (forall img :: skinPixels(img).Returned? ==> skinPixels(img).value <= img.height * img.width)
    }
  }

  datatype Report = Report(
    imagePath: string,
    nsfw: bool,
    nsfwScore: real,
    faces: nat,
    ocrText: string,
    blurScore: real,
    qualityScore: real,
    processingTime: real)

  /** The dict `process_image` returns, before it is serialised. */
  datatype Analysis = Failed(device: string, error: string) | Succeeded(report: Report)

  function Max(a: nat, b: nat): nat { if a >= b then a else b }
  function Min(a: nat, b: nat): nat { if a <= b then a else b }

  /** `int(side * scale)` with `scale = MAX_DIM / longest`, in exact arithmetic. */
  function ScaledSide(side: nat, longest: nat): (r: nat)
    requires 0 < longest
    ensures side <= longest ==> r <= MAX_DIM
    ensures side == longest ==> r == MAX_DIM
  {
    var scale := MAX_DIM as real / longest as real;
    assert scale > 0.0;
    var x := side as real * scale;
    assert side <= longest ==> x <= longest as real * scale;
    assert longest as real * scale == MAX_DIM as real;
    x.Floor
  }

  /** The resize step: images whose longer side exceeds MAX_DIM are scaled
      down so that it becomes MAX_DIM; the others are left as they are. */
  function Prepare(v: Vision, image: Image): (r: Completion<Image>)
    requires v.Valid() && image.height > 0 && image.width > 0
    ensures Max(image.height, image.width) <= MAX_DIM ==> r == Returned(image)
    ensures Max(image.height, image.width) > MAX_DIM ==>
      r == v.resize(image, ScaledSide(image.width, Max(image.height, image.width)),
                           ScaledSide(image.height, Max(image.height, image.width)))
    ensures r.Returned? ==> 0 < r.value.height && 0 < r.value.width
    ensures r.Returned? ==> Max(r.value.height, r.value.width) <= MAX_DIM
    ensures r.Returned? && Max(image.height, image.width) > MAX_DIM ==>
      Max(r.value.height, r.value.width) == MAX_DIM
  {
    var longest := Max(image.height, image.width);
    if longest > MAX_DIM then
      v.resize(image, ScaledSide(image.width, longest), ScaledSide(image.height, longest))
    else
      Returned(image)
  }

  /** The number of detections whose confidence is above FACE_CONFIDENCE. */
  function CountConfident(s: seq<real>): (r: nat)
    ensures r <= |s|
  {
    if s == [] then 0
    else CountConfident(s[..|s| - 1]) + (if s[|s| - 1] > FACE_CONFIDENCE then 1 else 0)
  }

  lemma {:induction false} CountConfidentExtremes(s: seq<real>)
    ensures CountConfident(s) == |s| <==> forall i :: 0 <= i < |s| ==> s[i] > FACE_CONFIDENCE
    ensures CountConfident(s) == 0 <==> forall i :: 0 <= i < |s| ==> s[i] <= FACE_CONFIDENCE
  {
    if s != [] {
      var init := s[..|s| - 1];
      CountConfidentExtremes(init);
      assert forall i :: 0 <= i < |init| ==> init[i] == s[i];
    }
  }

  /** `detect_faces`: count the confident detections of the face
      detector, or pass on the exception the detector raised. */
  method DetectFaces(v: Vision, image: Image) returns (r: Completion<nat>)
    ensures v.faceConfidences(image).Raised? ==> r == Raised(v.faceConfidences(image).error)
    ensures v.faceConfidences(image).Returned? ==>
      && r == Returned(CountConfident(v.faceConfidences(image).value))
      && r.value <= |v.faceConfidences(image).value|
  {
    var forward := v.faceConfidences(image);
    if forward.Raised? {
      return Raised(forward.error);
    }
    var detections := forward.value;
    var count := 0;
    for i := 0 to |detections|
      invariant count == CountConfident(detections[..i])
    {
      assert detections[..i + 1][..i] == detections[..i];
      if detections[i] > FACE_CONFIDENCE {
        count := count + 1;
      }
    }
    assert detections[..|detections|] == detections;
    r := Returned(count);
  }

  /** `[r[1] for r in ocr_results]` */
  function Texts(hits: seq<OcrHit>): (r: seq<string>)
    ensures |r| == |hits| && forall i :: 0 <= i < |hits| ==> r[i] == hits[i].text
  {
    seq(|hits|, i requires 0 <= i < |hits| => hits[i].text)
  }

  /** `" ".join(words)` */
  function JoinSpace(words: seq<string>): string {
    if |words| == 0 then ""
    else if |words| == 1 then words[0]
    else words[0] + " " + JoinSpace(words[1..])
  }

  /** `s.split(" ")`: the pieces between single spaces; the inverse of
      `JoinSpace` on strings without spaces. */
  function SplitSpace(s: string): (r: seq<string>)
    ensures |r| >= 1
  {
    if |s| == 0 then [""]
    else
      var rest := SplitSpace(s[1..]);
      if s[0] == ' ' then [""] + rest else [[s[0]] + rest[0]] + rest[1..]
  }

  lemma {:induction false} SplitWord(w: string, tail: seq<string>)
    requires ' ' !in w && |tail| >= 1
    ensures SplitSpace(w + " " + JoinSpace(tail)) == [w] + SplitSpace(JoinSpace(tail))
    ensures SplitSpace(w) == [w]
  {
    if w != [] {
      SplitWord(w[1..], tail);
      assert (w + " " + JoinSpace(tail))[1..] == w[1..] + " " + JoinSpace(tail);
      assert [w[0]] + w[1..] == w;
    } else {
      assert w + " " + JoinSpace(tail) == " " + JoinSpace(tail);
    }
  }

  /** Joining the recognised strings with one space keeps every string and
      their order: splitting the joined text on spaces gives them back. */
  lemma {:induction false} JoinSpaceRoundTrip(words: seq<string>)
    requires |words| >= 1
    requires forall i :: 0 <= i < |words| ==> ' ' !in words[i]
    ensures SplitSpace(JoinSpace(words)) == words
  {
    if |words| == 1 {
      SplitWord(words[0], [""]);
    } else {
      JoinSpaceRoundTrip(words[1..]);
      SplitWord(words[0], words[1..]);
    }
  }

  /** The joined text is empty exactly when there was nothing, or only one
      empty string, to join. */
  lemma {:induction false} JoinSpaceEmpty(words: seq<string>)
    ensures JoinSpace(words) == "" <==> words == [] || words == [""]
  {
    if |words| >= 2 {
      assert |JoinSpace(words)| >= 1;
    }
  }

  /** The OCR text of a report: empty without OCR hits, and otherwise,
      when no recognised string holds a space, split on spaces it gives
      the text of each hit, in the order EasyOCR returned them. */
  lemma OcrText(hits: seq<OcrHit>)
    ensures hits == [] ==> JoinSpace(Texts(hits)) == ""
    ensures |hits| >= 1 && (forall i :: 0 <= i < |hits| ==> ' ' !in hits[i].text) ==>
      var pieces := SplitSpace(JoinSpace(Texts(hits)));
      |pieces| == |hits| && forall i :: 0 <= i < |hits| ==> pieces[i] == hits[i].text
  {
    var words := Texts(hits);
    if |hits| >= 1 && (forall i :: 0 <= i < |hits| ==> ' ' !in hits[i].text) {
      JoinSpaceRoundTrip(words);
    }
  }

  /** `skin_ratio`: the share of the image's `total` pixels that the skin
      mask selects. */
  function SkinRatio(skin: nat, total: nat): (r: real)
    requires total > 0
    ensures skin <= total ==> 0.0 <= r <= 1.0
    ensures r > NSFW_THRESHOLD <==> 4 * skin > total
  {
    var r := skin as real / total as real;
    DivideCompare(skin as real, total as real, NSFW_THRESHOLD);
    DivideCompare(skin as real, total as real, 1.0);
    r
  }

  /** Comparing a quotient by a positive divisor with a bound. */
  lemma DivideCompare(x: real, d: real, t: real)
    requires d > 0.0
    ensures x / d > t <==> x > t * d
  {
    var q := x / d;
    assert q * d == x;
    if q > t {
      assert q * d > t * d;
    }
    if x > t * d {
      assert q * d > t * d;
    }
  }

  /** `min(blur / 100 + min(h, w) / 1000, 1.0)`, before rounding. */
  function QualityScore(blur: real, height: nat, width: nat): (q: real)
    ensures q <= 1.0
    ensures blur >= 0.0 ==> q >= 0.0
    ensures q == 1.0 <==> blur / 100.0 + Min(height, width) as real / 1000.0 >= 1.0
  {
    var raw := blur / 100.0 + Min(height, width) as real / 1000.0;
    if raw <= 1.0 then raw else 1.0
  }

  /** `process_image`. `elapsed` is the wall-clock time the caller measured.
      An exception of a library call escapes, as in the code. */
  method ProcessImage(v: Vision, imagePath: string, elapsed: real) returns (r: Completion<Analysis>)
    requires v.Valid()
    ensures !v.pathExists(imagePath) ==> r == Returned(Failed(DEVICE, "Image not found"))
    ensures v.pathExists(imagePath) && v.imread(imagePath).None? ==>
      r == Returned(Failed(DEVICE, "Invalid image"))
    ensures v.pathExists(imagePath) && v.imread(imagePath).Some? ==>
      var prepared := Prepare(v, v.imread(imagePath).value);
      && (prepared.Raised? ==> r == Raised(prepared.error))
      && (prepared.Returned? ==>
            var img := prepared.value;
            var detections, hits, blur, skin :=
              v.faceConfidences(img), v.readText(img), v.laplacianVariance(img), v.skinPixels(img);
            && (detections.Raised? ==> r == Raised(detections.error))
            && (detections.Returned? && hits.Raised? ==> r == Raised(hits.error))
            && (detections.Returned? && hits.Returned? && blur.Raised? ==> r == Raised(blur.error))
            && (detections.Returned? && hits.Returned? && blur.Returned? && skin.Raised? ==>
                  r == Raised(skin.error))
            && (detections.Returned? && hits.Returned? && blur.Returned? && skin.Returned? ==>
                  var ratio := SkinRatio(skin.value, img.height * img.width);
                  r == Returned(Succeeded(Report(
                    imagePath,
                    ratio > NSFW_THRESHOLD,
                    ratio,
                    CountConfident(detections.value),
                    JoinSpace(Texts(hits.value)),
                    blur.value,
                    QualityScore(blur.value, img.height, img.width),
                    elapsed)))))
    ensures r.Returned? && r.value.Succeeded? ==>
      var rep := r.value.report;
      && 0.0 <= rep.nsfwScore <= 1.0
      && (rep.nsfw <==> rep.nsfwScore > NSFW_THRESHOLD)
      && 0.0 <= rep.qualityScore <= 1.0
      && rep.blurScore >= 0.0
  {
    if !v.pathExists(imagePath) {
      return Returned(Failed(DEVICE, "Image not found"));
    }
    var loaded := v.imread(imagePath);
    if loaded.None? {
      return Returned(Failed(DEVICE, "Invalid image"));
    }
    var prepared := Prepare(v, loaded.value);
    if prepared.Raised? {
      return Raised(prepared.error);
    }
    var image := prepared.value;
    var faces := DetectFaces(v, image);
    if faces.Raised? {
      return Raised(faces.error);
    }
    var hits := v.readText(image);
    if hits.Raised? {
      return Raised(hits.error);
    }
    var text := JoinSpace(Texts(hits.value));
    var blur := v.laplacianVariance(image);
    if blur.Raised? {
      return Raised(blur.error);
    }
    var skin := v.skinPixels(image);
    if skin.Raised? {
      return Raised(skin.error);
    }
    var nsfwScore := SkinRatio(skin.value, image.height * image.width);
    var nsfw := nsfwScore > NSFW_THRESHOLD;
    var quality := QualityScore(blur.value, image.height, image.width);
    r := Returned(Succeeded(Report(imagePath, nsfw, nsfwScore, faces.value, text, blur.value, quality, elapsed)));
  }

  /** The dict a finished `process_image` call returns. */
  function AnalysisDict(a: Analysis): (d: Value)
    ensures d.Dict? && "status" in d.fields && "device" in d.fields
    ensures IsFailedPayload(d) <==> a.Failed?
  {
    match a
    case Failed(device, error) =>
      Dict(map["status" := Str("failed"), "device" := Str(device), "error" := Str(error)])
    case Succeeded(rep) =>
      Dict(map[
        "status" := Str("success"),
        "device" := Str(DEVICE),
        "image_path" := Str(rep.imagePath),
        "nsfw" := Bool(rep.nsfw),
        "nsfw_score" := Real(rep.nsfwScore),
        "faces_detected" := Int(rep.faces),
        "ocr_text" := Str(rep.ocrText),
        "blur_score" := Real(rep.blurScore),
        "quality_score" := Real(rep.qualityScore),
        "processing_time" := Real(rep.processingTime),
        "model" := Dict(map[
          "face" := Str("opencv-dnn"),
          "ocr" := Str("easyocr"),
          "nsfw" := Str("heuristic-v1"),
          "device" := Str("cpu")])])
  }
}
