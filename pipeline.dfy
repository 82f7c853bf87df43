/** The upload handler and its three thumbnail paths. Each path downloads the
    object, obtains one raster from it, then walks the fixed sizes: a size the
    raster is too small for is skipped, every other size is resized, saved,
    made public and entered in the thumbnails dictionary, and the report
    `{name, thumbnails}` is built at the end. Any throw leaves the path at once. */
module Pipeline {
  import opened Wrappers
  import opened Strings
  import opened Naming
  import opened Classifier
  import opened Storage

  /** The call inside the per-size loop that throws. */
  datatype Step = Resize | Upload | Publish

  /** The first store or resize call that throws during this invocation, if
      any: the download of an existing source, or the call issued for
      `Sizes[at]` at `step` inside the per-size loop. The first throw leaves
      the whole `try` block, so later calls never run. A missing source
      makes the download throw whatever the fault says. Conversion failures
      are the converters' own `Err` results. */
  datatype Fault = NoFault | DownloadThrows | Fails(at: nat, step: Step)

  /** The external converters, as functions of their input. Each may fail
      with a message. */
  datatype Converters = Converters(
    imageMetadata: Blob -> Result<Raster, string>,  // decode an image and read its size
    pdfFirstPage: Blob -> Result<Raster, string>,   // rasterize page 1 of a PDF at scale 3
    docxToHtml: Blob -> Result<string, string>,     // convert a DOCX document to HTML
    htmlToPdf: string -> Result<Blob, string>)      // render that HTML, in its fixed A4 page shell, to PDF

  /** Why a path stopped before reporting. */
  datatype Failure =
    | DownloadFailed
    | ConversionFailed(message: string)
    | StepFailed(size: string, step: Step)

  /** The request body handed to the metadata callback. */
  datatype Report = Report(name: string, thumbnails: map<string, string>)

  /** What one invocation of the handler ends with. */
  datatype Outcome =
    | AlreadyProcessed
    | NotSupported
    | Reported(report: Report)
    | Failed(failure: Failure)

  /** The DOCX adapter: HTML conversion, PDF rendering, then the PDF adapter's
      page-one rasterization; the first failing stage ends the chain. */
  function DocxRaster(conv: Converters, data: Blob): Result<Raster, string>
  {
    match conv.docxToHtml(data)
    case Err(e) => Err(e)
    case Ok(html) =>
      match conv.htmlToPdf(html)
      case Err(e) => Err(e)
      case Ok(pdf) => conv.pdfFirstPage(pdf)
  }

  /** The size-skip test: the raster is at least as wide and as tall as the box. */
  predicate Fits(img: Raster, i: nat)
    requires i < |Targets|
  {
    !(img.width < Targets[i].width || img.height < Targets[i].height)
  }

  /** The labels among the first `k` sizes that are not skipped, in list order. */
  function Produced(img: Raster, k: nat): seq<string>
    requires k <= |Sizes|
  {
    if k == 0 then []
    else Produced(img, k - 1) + (if Fits(img, k - 1) then [Sizes[k - 1]] else [])
  }

  /** The object written for size `i`, once it has been made public. */
  function Thumb(img: Raster, i: nat, ext: string): StoredObject
    requires i < |Targets|
  {
    StoredObject(Resized(img, Targets[i]), "image/" + ext, CacheControl, true)
  }

  /** The objects the first `k` sizes write, by destination name. */
  function Thumbs(stem: string, ext: string, img: Raster, k: nat): map<string, StoredObject>
    requires k <= |Sizes|
  {
    if k == 0 then map[]
    else
      var m := Thumbs(stem, ext, img, k - 1);
      if Fits(img, k - 1) then m[Destination(stem, Sizes[k - 1], ext) := Thumb(img, k - 1, ext)] else m
  }

  /** The thumbnails dictionary after the first `k` sizes. */
  function Links(bucketName: string, stem: string, ext: string, img: Raster, k: nat): map<string, string>
    requires k <= |Sizes|
  {
    if k == 0 then map[]
    else
      var m := Links(bucketName, stem, ext, img, k - 1);
      if Fits(img, k - 1)
      then m[IndexKey(Sizes[k - 1]) := PublicUrl(bucketName, Destination(stem, Sizes[k - 1], ext))]
      else m
  }

  /** The fault is met: its size is one the loop does not skip. */
  predicate Stops(img: Raster, fault: Fault)
  {
    fault.Fails? && fault.at < |Sizes| && Fits(img, fault.at)
  }

  /** The bucket and the outcome after the per-size loop and the report. */
  function Generate(objects: map<string, StoredObject>, bucketName: string, fileName: string,
                    stem: string, ext: string, img: Raster, fault: Fault): (map<string, StoredObject>, Outcome)
  {
    if Stops(img, fault) then
      var done := objects + Thumbs(stem, ext, img, fault.at);
      var size := Sizes[fault.at];
      var after :=
        if fault.step == Publish
        then done[Destination(stem, size, ext) := Thumb(img, fault.at, ext).(isPublic := false)]
        else done;
      (after, Failed(StepFailed(size, fault.step)))
    else
      (objects + Thumbs(stem, ext, img, |Sizes|),
       Reported(Report(fileName, Links(bucketName, stem, ext, img, |Sizes|))))
  }

  /** One thumbnail path: download, obtain the raster, then generate. The
      download throws for a missing object and for a `DownloadThrows` fault. */
  function Process(objects: map<string, StoredObject>, bucketName: string, fileName: string,
                   stem: string, ext: string, rasterize: Blob -> Result<Raster, string>,
                   fault: Fault): (map<string, StoredObject>, Outcome)
  {
    if fileName !in objects || fault.DownloadThrows? then (objects, Failed(DownloadFailed))
    else
      match rasterize(objects[fileName].content)
      case Err(e) => (objects, Failed(ConversionFailed(e)))
      case Ok(img) => Generate(objects, bucketName, fileName, stem, ext, img, fault)
  }

  /** The whole invocation for an uploaded object `fileName` in `bucketName`. */
  function Handle(objects: map<string, StoredObject>, bucketName: string, fileName: string,
                  conv: Converters, fault: Fault): (map<string, StoredObject>, Outcome)
  {
    match Classify(fileName)
    case AlreadyThumbnail => (objects, AlreadyProcessed)
    case Unsupported => (objects, NotSupported)
    case ImagePath(ext) =>
      Process(objects, bucketName, fileName, ImageStem(fileName), ext, conv.imageMetadata, fault)
    case PdfPath =>
      Process(objects, bucketName, fileName, DocumentStem(fileName), "png", conv.pdfFirstPage, fault)
    case DocxPath =>
      Process(objects, bucketName, fileName, DocumentStem(fileName), "png", data => DocxRaster(conv, data), fault)
  }

  /** One admitted size adds its public object on top of what was already there. */
  lemma WriteStep(objects: map<string, StoredObject>, stem: string, ext: string, img: Raster, i: nat)
    requires i < |Sizes| && Fits(img, i)
    ensures (objects + Thumbs(stem, ext, img, i))[Destination(stem, Sizes[i], ext) := Thumb(img, i, ext)]
         == objects + Thumbs(stem, ext, img, i + 1)
  {
  }

  /** Where the loop stops at size `i`: the sizes before it are in place and,
      when publishing failed, size `i` is stored but private. */
  lemma StopsAt(objects: map<string, StoredObject>, bucketName: string, fileName: string,
                stem: string, ext: string, img: Raster, i: nat, step: Step)
    requires i < |Sizes| && Fits(img, i)
    ensures Generate(objects, bucketName, fileName, stem, ext, img, Fails(i, step)) ==
      (if step == Publish
       then (objects + Thumbs(stem, ext, img, i))[Destination(stem, Sizes[i], ext) := Thumb(img, i, ext).(isPublic := false)]
       else objects + Thumbs(stem, ext, img, i),
       Failed(StepFailed(Sizes[i], step)))
  {
  }

  /** Where the loop runs to the end: every admitted size is in place and reported. */
  lemma RunsThrough(objects: map<string, StoredObject>, bucketName: string, fileName: string,
                    stem: string, ext: string, img: Raster, fault: Fault)
    requires !(fault.Fails? && fault.at < |Sizes| && Fits(img, fault.at))
    ensures Generate(objects, bucketName, fileName, stem, ext, img, fault) ==
      (objects + Thumbs(stem, ext, img, |Sizes|), Reported(Report(fileName, Links(bucketName, stem, ext, img, |Sizes|))))
  {
  }

  /** `Sizes[i].split('x').map(Number)`: the box the `i`-th label names. */
  method ParseTarget(i: nat) returns (target: Target)
    requires i < |Sizes|
    ensures i < |Targets| && target == Targets[i]
  {
    SizeParses(i);
    var parsed := ParseSize(Sizes[i]);
    target := parsed.value;
  }

  /** The body of the per-size loop for an admitted size `i`: resize, save
      under the destination name, make public. It stops at the step `fault`
      names for this size; a failed publish leaves the saved object private,
      an earlier failure leaves the bucket as it was. */
  method WriteSize(bucket: Bucket, stem: string, ext: string, img: Raster, i: nat, target: Target, fault: Fault)
    returns (stopped: bool)
    requires i < |Targets| && target == Targets[i]
    modifies bucket
    ensures stopped <==> fault.Fails? && fault.at == i
    ensures !stopped ==> bucket.objects == old(bucket.objects)[Destination(stem, Sizes[i], ext) := Thumb(img, i, ext)]
    ensures stopped && fault.step == Publish ==>
      bucket.objects == old(bucket.objects)[Destination(stem, Sizes[i], ext) := Thumb(img, i, ext).(isPublic := false)]
    ensures stopped && fault.step != Publish ==> bucket.objects == old(bucket.objects)
  {
    var newName := Destination(stem, Sizes[i], ext);
    if fault == Fails(i, Resize) {
      return true;
    }
    var thumbnail := Resized(img, target);
    if fault == Fails(i, Upload) {
      return true;
    }
    bucket.Save(newName, thumbnail, "image/" + ext, CacheControl);
    if fault == Fails(i, Publish) {
      return true;
    }
    bucket.MakePublic(newName);
    assert fault.Fails? ==> fault.step == Resize || fault.step == Upload || fault.step == Publish;
    stopped := false;
  }

  /** The per-size loop shared by the three paths, followed by the report. The
      paths differ only in the stem and in the output extension, which also
      gives the content type `image/<ext>`. */
  method GenerateSizes(bucket: Bucket, fileName: string, stem: string, ext: string, img: Raster, fault: Fault)
    returns (outcome: Outcome)
    modifies bucket
    ensures (bucket.objects, outcome) == Generate(old(bucket.objects), bucket.name, fileName, stem, ext, img, fault)
  {
    var created: map<string, string> := map[];
    var i: nat := 0;
    while i < |Sizes|
      invariant i <= |Sizes|
      invariant bucket.objects == old(bucket.objects) + Thumbs(stem, ext, img, i)
      invariant created == Links(bucket.name, stem, ext, img, i)
      invariant Stops(img, fault) ==> fault.at >= i
    {
      var size := Sizes[i];
      var target := ParseTarget(i);
      if img.width < target.width || img.height < target.height {
        i := i + 1;
        continue;
      }
      var stopped := WriteSize(bucket, stem, ext, img, i, target, fault);
      if stopped {
        StopsAt(old(bucket.objects), bucket.name, fileName, stem, ext, img, i, fault.step);
        return Failed(StepFailed(size, fault.step));
      }
      WriteStep(old(bucket.objects), stem, ext, img, i);
      created := created[IndexKey(size) := PublicUrl(bucket.name, Destination(stem, size, ext))];
      i := i + 1;
    }
    RunsThrough(old(bucket.objects), bucket.name, fileName, stem, ext, img, fault);
    outcome := Reported(Report(fileName, created));
  }

  /** Downloads the source and obtains its raster, then runs the size loop. */
  method ProcessUpload(bucket: Bucket, fileName: string, stem: string, ext: string,
                       rasterize: Blob -> Result<Raster, string>, fault: Fault)
    returns (outcome: Outcome)
    modifies bucket
    ensures (bucket.objects, outcome) == Process(old(bucket.objects), bucket.name, fileName, stem, ext, rasterize, fault)
  {
    if fault.DownloadThrows? {
      return Failed(DownloadFailed);
    }
    var data := bucket.Download(fileName);
    if data.None? {
      return Failed(DownloadFailed);
    }
    match rasterize(data.value)
    case Err(e) =>
      outcome := Failed(ConversionFailed(e));
    case Ok(img) =>
      outcome := GenerateSizes(bucket, fileName, stem, ext, img, fault);
  }

  /** `createImageThumbnail`: the stem is the whole name and the thumbnails
      keep the source's lowercased extension. */
  method CreateImageThumbnail(bucket: Bucket, fileName: string, ext: string, conv: Converters, fault: Fault)
    returns (outcome: Outcome)
    modifies bucket
    ensures (bucket.objects, outcome) ==
      Process(old(bucket.objects), bucket.name, fileName, fileName, ext, conv.imageMetadata, fault)
  {
    var stem := Join(Split(fileName, '.'), '.');
    JoinSplit(fileName, '.');
    outcome := ProcessUpload(bucket, fileName, stem, ext, conv.imageMetadata, fault);
  }

  /** `createPdfThumbnail`: the stem drops the last segment, the thumbnails are PNG. */
  method CreatePdfThumbnail(bucket: Bucket, fileName: string, conv: Converters, fault: Fault)
    returns (outcome: Outcome)
    modifies bucket
    ensures (bucket.objects, outcome) ==
      Process(old(bucket.objects), bucket.name, fileName, DocumentStem(fileName), "png", conv.pdfFirstPage, fault)
  {
    var parts := Split(fileName, '.');
    var stem := Join(DropLast(parts), '.');
    outcome := ProcessUpload(bucket, fileName, stem, "png", conv.pdfFirstPage, fault);
  }

  /** `createDocxThumbnail`: as the PDF path, with the raster obtained through
      the DOCX conversion chain. */
  method CreateDocxThumbnail(bucket: Bucket, fileName: string, conv: Converters, fault: Fault)
    returns (outcome: Outcome)
    modifies bucket
    ensures (bucket.objects, outcome) ==
      Process(old(bucket.objects), bucket.name, fileName, DocumentStem(fileName), "png",
              data => DocxRaster(conv, data), fault)
  {
    var parts := Split(fileName, '.');
    var stem := Join(DropLast(parts), '.');
    outcome := ProcessUpload(bucket, fileName, stem, "png", data => DocxRaster(conv, data), fault);
  }

  /** The `generateThumbnail` event handler for an upload of `fileName` into `bucket`. */
  method GenerateThumbnail(bucket: Bucket, fileName: string, conv: Converters, fault: Fault)
    returns (outcome: Outcome)
    modifies bucket
    ensures (bucket.objects, outcome) == Handle(old(bucket.objects), bucket.name, fileName, conv, fault)
  {
    var route := Classify(fileName);
    match route
    case AlreadyThumbnail =>
      outcome := AlreadyProcessed;
    case Unsupported =>
      outcome := NotSupported;
    case ImagePath(ext) =>
      outcome := CreateImageThumbnail(bucket, fileName, ext, conv, fault);
    case PdfPath =>
      outcome := CreatePdfThumbnail(bucket, fileName, conv, fault);
    case DocxPath =>
      outcome := CreateDocxThumbnail(bucket, fileName, conv, fault);
  }
}
