/** What the pipeline guarantees: the size-skip law, the exact contents of
    the bucket and of the thumbnails dictionary, the partial state a failure
    leaves, the marker guard and re-run idempotence. */
module ThumbnailLaws {
  import opened Wrappers
  import opened Strings
  import opened Naming
  import opened Classifier
  import opened Storage
  import opened Pipeline

  /** Distinct sizes have distinct destinations. */
  lemma DestinationsDistinct(stem: string, ext: string, i: nat, j: nat)
    requires i < |Sizes| && j < |Sizes| && i != j
    ensures Destination(stem, Sizes[i], ext) != Destination(stem, Sizes[j], ext)
  {
    SizesDistinct();
    if Destination(stem, Sizes[i], ext) == Destination(stem, Sizes[j], ext) {
      DestinationInjective(stem, Sizes[i], Sizes[j], ext);
    }
  }

  /** Distinct sizes have distinct dictionary keys. */
  lemma IndexKeysDistinct(i: nat, j: nat)
    requires i < |Sizes| && j < |Sizes| && i != j
    ensures IndexKey(Sizes[i]) != IndexKey(Sizes[j])
  {
    SizesDistinct();
    assert IndexKey(Sizes[i])[1..] == Sizes[i] && IndexKey(Sizes[j])[1..] == Sizes[j];
  }

  /** The size-skip law on prefixes: a label is produced iff its box fits. */
  lemma {:induction false} ProducedPrefix(img: Raster, k: nat)
    requires k <= |Sizes|
    ensures forall i :: 0 <= i < |Sizes| ==> (Sizes[i] in Produced(img, k) <==> i < k && Fits(img, i))
  {
    SizesDistinct();
    if k > 0 {
      ProducedPrefix(img, k - 1);
      forall i | 0 <= i < |Sizes|
        ensures Sizes[i] in Produced(img, k) <==> i < k && Fits(img, i)
      {
      }
    }
  }

  /** Size-skip law: over the whole list, label `WxH` is produced exactly when
      the raster is at least `W` wide and `H` tall. */
  lemma SizeSkipLaw(img: Raster)
    ensures forall i :: 0 <= i < |Sizes| ==>
      (Sizes[i] in Produced(img, |Sizes|) <==> img.width >= Targets[i].width && img.height >= Targets[i].height)
  {
    ProducedPrefix(img, |Sizes|);
  }

  /** The objects written by the first `k` sizes: exactly one per size that
      fits, under its destination name, public, with the cache directive and
      the content type `image/<ext>`. */
  lemma {:induction false} ThumbsExact(stem: string, ext: string, img: Raster, k: nat)
    requires k <= |Sizes|
    ensures forall n :: n in Thumbs(stem, ext, img, k) <==>
      exists i :: 0 <= i < k && Fits(img, i) && n == Destination(stem, Sizes[i], ext)
    ensures forall i :: 0 <= i < k && Fits(img, i) ==>
      Thumbs(stem, ext, img, k)[Destination(stem, Sizes[i], ext)] == Thumb(img, i, ext)
  {
    if k > 0 {
      ThumbsExact(stem, ext, img, k - 1);
      forall i | 0 <= i < k - 1 && Fits(img, i)
        ensures Thumbs(stem, ext, img, k)[Destination(stem, Sizes[i], ext)] == Thumb(img, i, ext)
      {
        DestinationsDistinct(stem, ext, i, k - 1);
      }
    }
  }

  /** The dictionary after the first `k` sizes: one key `s<label>` per size
      that fits, mapped to the public URL of its destination. */
  lemma {:induction false} LinksExact(bucketName: string, stem: string, ext: string, img: Raster, k: nat)
    requires k <= |Sizes|
    ensures forall key :: key in Links(bucketName, stem, ext, img, k) <==>
      exists i :: 0 <= i < k && Fits(img, i) && key == IndexKey(Sizes[i])
    ensures forall i :: 0 <= i < k && Fits(img, i) ==>
      Links(bucketName, stem, ext, img, k)[IndexKey(Sizes[i])] == PublicUrl(bucketName, Destination(stem, Sizes[i], ext))
  {
    if k > 0 {
      LinksExact(bucketName, stem, ext, img, k - 1);
      forall i | 0 <= i < k - 1 && Fits(img, i)
        ensures Links(bucketName, stem, ext, img, k)[IndexKey(Sizes[i])]
             == PublicUrl(bucketName, Destination(stem, Sizes[i], ext))
      {
        IndexKeysDistinct(i, k - 1);
      }
    }
  }

  /** The destination of a later size is not among the objects of the first `k` sizes. */
  lemma {:induction false} LaterDestinationAbsent(stem: string, ext: string, img: Raster, k: nat, j: nat)
    requires k <= j < |Sizes|
    ensures Destination(stem, Sizes[j], ext) !in Thumbs(stem, ext, img, k)
  {
    if k > 0 {
      LaterDestinationAbsent(stem, ext, img, k - 1, j);
      DestinationsDistinct(stem, ext, k - 1, j);
    }
  }

  /** The key of a later size is not in the dictionary of the first `k` sizes. */
  lemma {:induction false} LaterKeyAbsent(bucketName: string, stem: string, ext: string, img: Raster, k: nat, j: nat)
    requires k <= j < |Sizes|
    ensures IndexKey(Sizes[j]) !in Links(bucketName, stem, ext, img, k)
  {
    if k > 0 {
      LaterKeyAbsent(bucketName, stem, ext, img, k - 1, j);
      IndexKeysDistinct(k - 1, j);
    }
  }

  /** One new object per produced size: no destination is written twice within one run. */
  lemma {:induction false} ThumbsCount(stem: string, ext: string, img: Raster, k: nat)
    requires k <= |Sizes|
    ensures |Thumbs(stem, ext, img, k)| == |Produced(img, k)|
  {
    if k > 0 {
      ThumbsCount(stem, ext, img, k - 1);
      LaterDestinationAbsent(stem, ext, img, k - 1, k - 1);
    }
  }

  /** One dictionary entry per produced size: no key is set twice within one run. */
  lemma {:induction false} LinksCount(bucketName: string, stem: string, ext: string, img: Raster, k: nat)
    requires k <= |Sizes|
    ensures |Links(bucketName, stem, ext, img, k)| == |Produced(img, k)|
  {
    if k > 0 {
      LinksCount(bucketName, stem, ext, img, k - 1);
      LaterKeyAbsent(bucketName, stem, ext, img, k - 1, k - 1);
    }
  }

  /** When no box among the first `k` fits, nothing is produced, written or indexed. */
  lemma {:induction false} NothingFits(bucketName: string, stem: string, ext: string, img: Raster, k: nat)
    requires k <= |Sizes|
    requires forall i :: 0 <= i < k ==> !Fits(img, i)
    ensures Produced(img, k) == []
    ensures Thumbs(stem, ext, img, k) == map[]
    ensures Links(bucketName, stem, ext, img, k) == map[]
  {
    if k > 0 {
      NothingFits(bucketName, stem, ext, img, k - 1);
    }
  }

  /** A raster narrower or shorter than 150 pixels (a 100x100 one, say) gets
      no thumbnails, and the run still reports, with an empty dictionary,
      whatever fault is planned: no call that could throw is ever made. */
  lemma SmallSourceYieldsNothing(objects: map<string, StoredObject>, bucketName: string, fileName: string,
                                 stem: string, ext: string, img: Raster, fault: Fault)
    requires img.width < 150 || img.height < 150
    ensures Produced(img, |Sizes|) == []
    ensures Generate(objects, bucketName, fileName, stem, ext, img, fault) ==
      (objects, Reported(Report(fileName, map[])))
  {
    NothingFits(bucketName, stem, ext, img, |Sizes|);
    assert objects + map[] == objects;
  }

  /** When every box among the first `k` fits, all `k` labels are produced in order. */
  lemma {:induction false} EverythingFits(img: Raster, k: nat)
    requires k <= |Sizes|
    requires forall i :: 0 <= i < k ==> Fits(img, i)
    ensures Produced(img, k) == Sizes[..k]
  {
    if k > 0 {
      EverythingFits(img, k - 1);
      assert Sizes[..k] == Sizes[..k - 1] + [Sizes[k - 1]];
    }
  }

  /** A raster of at least 1280x720 (a 2000x1000 photo, say) gets all five sizes. */
  lemma LargeSourceYieldsAll(img: Raster)
    requires img.width >= 1280 && img.height >= 720
    ensures Produced(img, |Sizes|) == Sizes
  {
    EverythingFits(img, |Sizes|);
  }

  /** A fault-free run on such a raster writes all five thumbnails and
      reports five URLs. */
  lemma LargeSourceRun(objects: map<string, StoredObject>, bucketName: string, fileName: string,
                       stem: string, ext: string, img: Raster)
    requires img.width >= 1280 && img.height >= 720
    ensures var (after, outcome) := Generate(objects, bucketName, fileName, stem, ext, img, NoFault);
      && outcome.Reported?
      && |outcome.report.thumbnails| == 5
      && forall i :: 0 <= i < |Sizes| ==> Destination(stem, Sizes[i], ext) in after
  {
    LargeSourceYieldsAll(img);
    LinksCount(bucketName, stem, ext, img, |Sizes|);
    ThumbsExact(stem, ext, img, |Sizes|);
    assert forall i :: 0 <= i < |Sizes| ==> Fits(img, i);
  }

  /** A 794x1123 raster gets the four sizes up to 640x360; 1280x720 is
      skipped because the raster is narrower than 1280. */
  lemma PortraitPageSkipsWidest()
    ensures Produced(Raster(794, 1123), |Sizes|) == Sizes[..4]
  {
    var img := Raster(794, 1123);
    EverythingFits(img, 4);
    assert !Fits(img, 4);
  }

  /** A failure at size `at` leaves the sizes before it written and public,
      writes no later size and yields no report. A failed resize or upload
      writes nothing for `at`; a failed make-public leaves it written but
      not public. */
  lemma FailureKeepsEarlierSizes(objects: map<string, StoredObject>, bucketName: string, fileName: string,
                                 stem: string, ext: string, img: Raster, fault: Fault)
    requires Stops(img, fault)
    ensures Generate(objects, bucketName, fileName, stem, ext, img, fault).1 ==
      Failed(StepFailed(Sizes[fault.at], fault.step))
    ensures forall i :: 0 <= i < fault.at && Fits(img, i) ==>
      var after := Generate(objects, bucketName, fileName, stem, ext, img, fault).0;
      Destination(stem, Sizes[i], ext) in after && after[Destination(stem, Sizes[i], ext)] == Thumb(img, i, ext)
    ensures forall j :: fault.at < j < |Sizes| ==>
      var d := Destination(stem, Sizes[j], ext);
      var after := Generate(objects, bucketName, fileName, stem, ext, img, fault).0;
      (d in after <==> d in objects) && (d in objects ==> after[d] == objects[d])
    ensures
      var d := Destination(stem, Sizes[fault.at], ext);
      var after := Generate(objects, bucketName, fileName, stem, ext, img, fault).0;
      if fault.step == Publish then d in after && after[d] == Thumb(img, fault.at, ext).(isPublic := false)
      else (d in after <==> d in objects) && (d in objects ==> after[d] == objects[d])
  {
    var at := fault.at;
    ThumbsExact(stem, ext, img, at);
    forall j | 0 <= j < |Sizes| && j != at
      ensures Destination(stem, Sizes[j], ext) != Destination(stem, Sizes[at], ext)
    {
      DestinationsDistinct(stem, ext, j, at);
    }
    forall j, i | at <= j < |Sizes| && 0 <= i < at
      ensures Destination(stem, Sizes[j], ext) != Destination(stem, Sizes[i], ext)
    {
      DestinationsDistinct(stem, ext, j, i);
    }
  }

  /** A run that meets no fault writes every fitting size, public, with the
      cache directive and content type `image/<ext>`, and leaves every other
      object as it was. */
  lemma CompleteRunPublishesAll(objects: map<string, StoredObject>, bucketName: string, fileName: string,
                                stem: string, ext: string, img: Raster, fault: Fault)
    requires !Stops(img, fault)
    ensures var after := Generate(objects, bucketName, fileName, stem, ext, img, fault).0;
      && (forall i :: 0 <= i < |Sizes| && Fits(img, i) ==>
            var d := Destination(stem, Sizes[i], ext);
            && d in after
            && after[d].isPublic
            && after[d].cacheControl == "public, max-age=3600"
            && after[d].contentType == "image/" + ext
            && after[d].content == Resized(img, Targets[i]))
      && (forall n :: n in objects && (forall i :: 0 <= i < |Sizes| && Fits(img, i) ==> n != Destination(stem, Sizes[i], ext))
            ==> n in after && after[n] == objects[n])
  {
    ThumbsExact(stem, ext, img, |Sizes|);
  }

  /** A run that meets no fault reports the source name and one public URL
      per fitting size, under the key `s<label>`, and no other key. */
  lemma CompleteRunReportsAll(objects: map<string, StoredObject>, bucketName: string, fileName: string,
                              stem: string, ext: string, img: Raster, fault: Fault)
    requires !Stops(img, fault)
    ensures var outcome := Generate(objects, bucketName, fileName, stem, ext, img, fault).1;
      && outcome.Reported?
      && outcome.report.name == fileName
      && (forall key :: key in outcome.report.thumbnails <==>
            exists i :: 0 <= i < |Sizes| && Fits(img, i) && key == "s" + Sizes[i])
      && (forall i :: 0 <= i < |Sizes| && Fits(img, i) ==>
            && "s" + Sizes[i] in outcome.report.thumbnails
            && outcome.report.thumbnails["s" + Sizes[i]] ==
                 "https://storage.googleapis.com/" + bucketName + "/" + Destination(stem, Sizes[i], ext))
  {
    LinksExact(bucketName, stem, ext, img, |Sizes|);
  }

  /** The size loop never deletes, and the only names it creates or changes
      are the destinations of the sizes the raster fits: a skipped size's
      destination is never written. */
  lemma GenerateWritesOnlyDestinations(objects: map<string, StoredObject>, bucketName: string, fileName: string,
                                       stem: string, ext: string, img: Raster, fault: Fault)
    ensures var after := Generate(objects, bucketName, fileName, stem, ext, img, fault).0;
      && (forall n :: n in objects ==> n in after)
      && (forall n :: n in after && (n !in objects || after[n] != objects[n]) ==>
            exists i :: 0 <= i < |Sizes| && Fits(img, i) && n == Destination(stem, Sizes[i], ext))
  {
    var k := if Stops(img, fault) then fault.at else |Sizes|;
    ThumbsExact(stem, ext, img, k);
  }

  /** The same for a whole path, download and conversion included: a write
      happens only when the source was downloaded and converted, and only to
      the destination of a size its raster fits. */
  lemma ProcessWritesOnlyDestinations(objects: map<string, StoredObject>, bucketName: string, fileName: string,
                                      stem: string, ext: string, rasterize: Blob -> Result<Raster, string>, fault: Fault)
    ensures var after := Process(objects, bucketName, fileName, stem, ext, rasterize, fault).0;
      && (forall n :: n in objects ==> n in after)
      && (forall n :: n in after && (n !in objects || after[n] != objects[n]) ==>
            && fileName in objects
            && !fault.DownloadThrows?
            && rasterize(objects[fileName].content).Ok?
            && exists i :: 0 <= i < |Sizes| && Fits(rasterize(objects[fileName].content).value, i)
                 && n == Destination(stem, Sizes[i], ext))
  {
    if fileName in objects && rasterize(objects[fileName].content).Ok? {
      GenerateWritesOnlyDestinations(objects, bucketName, fileName, stem, ext, rasterize(objects[fileName].content).value, fault);
    }
  }

  /** On the PDF and DOCX paths every object written is named
      `<stem>_<label>_u_thumbnail.png`, the stem being the name without its
      last `.` segment. */
  lemma DocumentOutputNames(objects: map<string, StoredObject>, bucketName: string, fileName: string,
                            conv: Converters, fault: Fault)
    requires Classify(fileName) == PdfPath || Classify(fileName) == DocxPath
    ensures var after := Handle(objects, bucketName, fileName, conv, fault).0;
      forall n :: n in after && (n !in objects || after[n] != objects[n]) ==>
        exists i :: 0 <= i < |Sizes| && n == DocumentStem(fileName) + "_" + Sizes[i] + "_u_thumbnail.png"
  {
    var stem := DocumentStem(fileName);
    var rasterize: Blob -> Result<Raster, string> :=
      if Classify(fileName) == PdfPath then conv.pdfFirstPage else data => DocxRaster(conv, data);
    ProcessWritesOnlyDestinations(objects, bucketName, fileName, stem, "png", rasterize, fault);
    forall i | 0 <= i < |Sizes| ensures Destination(stem, Sizes[i], "png") == stem + "_" + Sizes[i] + "_u_thumbnail.png" {
      assert Marker + "." + "png" == "_u_thumbnail.png";
    }
  }

  /** On the image path every object written is named
      `<name>_<label>_u_thumbnail.<ext>`: the whole source name, extension
      included, followed by the lowercased extension. */
  lemma ImageOutputNames(objects: map<string, StoredObject>, bucketName: string, fileName: string,
                         conv: Converters, fault: Fault)
    requires Classify(fileName).ImagePath?
    ensures var after := Handle(objects, bucketName, fileName, conv, fault).0;
      forall n :: n in after && (n !in objects || after[n] != objects[n]) ==>
        exists i :: 0 <= i < |Sizes| && n == fileName + "_" + Sizes[i] + "_u_thumbnail." + Extension(fileName)
  {
    var ext := Extension(fileName);
    ProcessWritesOnlyDestinations(objects, bucketName, fileName, fileName, ext, conv.imageMetadata, fault);
    forall i | 0 <= i < |Sizes|
      ensures Destination(fileName, Sizes[i], ext) == fileName + "_" + Sizes[i] + "_u_thumbnail." + ext
    {
      assert Marker + "." == "_u_thumbnail.";
    }
  }

  /** The size loop never deletes and only creates or changes thumbnail names. */
  lemma GenerateTouchesOnlyMarked(objects: map<string, StoredObject>, bucketName: string, fileName: string,
                                  stem: string, ext: string, img: Raster, fault: Fault)
    ensures var after := Generate(objects, bucketName, fileName, stem, ext, img, fault).0;
      && (forall n :: n in objects ==> n in after)
      && (forall n :: n in after && (n !in objects || after[n] != objects[n]) ==> Contains(n, Marker))
  {
    GenerateWritesOnlyDestinations(objects, bucketName, fileName, stem, ext, img, fault);
    forall i | 0 <= i < |Sizes| ensures Contains(Destination(stem, Sizes[i], ext), Marker) {
      DestinationCarriesMarker(stem, Sizes[i], ext);
    }
  }

  /** Only names carrying the marker are ever created or changed, and
      nothing is ever deleted. */
  lemma OnlyMarkedNamesChange(objects: map<string, StoredObject>, bucketName: string, fileName: string,
                              conv: Converters, fault: Fault)
    ensures var after := Handle(objects, bucketName, fileName, conv, fault).0;
      && (forall n :: n in objects ==> n in after)
      && (forall n :: n in after && (n !in objects || after[n] != objects[n]) ==> Contains(n, Marker))
  {
    match Classify(fileName)
    case AlreadyThumbnail =>
    case Unsupported =>
    case ImagePath(ext) =>
      ProcessTouchesOnlyMarked(objects, bucketName, fileName, ImageStem(fileName), ext, conv.imageMetadata, fault);
    case PdfPath =>
      ProcessTouchesOnlyMarked(objects, bucketName, fileName, DocumentStem(fileName), "png", conv.pdfFirstPage, fault);
    case DocxPath =>
      ProcessTouchesOnlyMarked(objects, bucketName, fileName, DocumentStem(fileName), "png",
                               data => DocxRaster(conv, data), fault);
  }

  /** The marker guard for a whole path. */
  lemma ProcessTouchesOnlyMarked(objects: map<string, StoredObject>, bucketName: string, fileName: string,
                                 stem: string, ext: string, rasterize: Blob -> Result<Raster, string>, fault: Fault)
    ensures var after := Process(objects, bucketName, fileName, stem, ext, rasterize, fault).0;
      && (forall n :: n in objects ==> n in after)
      && (forall n :: n in after && (n !in objects || after[n] != objects[n]) ==> Contains(n, Marker))
  {
    if fileName in objects && rasterize(objects[fileName].content).Ok? {
      GenerateTouchesOnlyMarked(objects, bucketName, fileName, stem, ext, rasterize(objects[fileName].content).value, fault);
    }
  }

  /** An upload whose name carries the marker is never dispatched and
      causes no writes, whatever its extension. */
  lemma MarkedNameIsIgnored(objects: map<string, StoredObject>, bucketName: string, fileName: string,
                            conv: Converters, fault: Fault)
    requires Contains(fileName, Marker)
    ensures Handle(objects, bucketName, fileName, conv, fault) == (objects, AlreadyProcessed)
  {
  }

  /** An unsupported extension causes no writes and no error. */
  lemma UnsupportedIsIgnored(objects: map<string, StoredObject>, bucketName: string, fileName: string,
                             conv: Converters, fault: Fault)
    requires !Contains(fileName, Marker) && Extension(fileName) !in RasterExtensions + ["pdf", "docx"]
    ensures Handle(objects, bucketName, fileName, conv, fault) == (objects, NotSupported)
  {
  }

  /** Generating on top of its own result changes nothing more: the same
      names are written with the same objects. */
  lemma GenerateIdempotent(objects: map<string, StoredObject>, bucketName: string, fileName: string,
                           stem: string, ext: string, img: Raster, fault: Fault)
    ensures var (once, outcome) := Generate(objects, bucketName, fileName, stem, ext, img, fault);
      Generate(once, bucketName, fileName, stem, ext, img, fault) == (once, outcome)
  {
    if Stops(img, fault) && fault.step == Publish {
      var at := fault.at;
      var t := Thumbs(stem, ext, img, at);
      var d := Destination(stem, Sizes[at], ext);
      ThumbsExact(stem, ext, img, at);
      forall i | 0 <= i < at && Fits(img, i) ensures d != Destination(stem, Sizes[i], ext) {
        DestinationsDistinct(stem, ext, i, at);
      }
      assert d !in t;
      var once := (objects + t)[d := Thumb(img, at, ext).(isPublic := false)];
      assert (once + t)[d := Thumb(img, at, ext).(isPublic := false)] == once;
    } else if Stops(img, fault) {
      var t := Thumbs(stem, ext, img, fault.at);
      assert (objects + t) + t == objects + t;
    } else {
      var t := Thumbs(stem, ext, img, |Sizes|);
      assert (objects + t) + t == objects + t;
    }
  }

  /** Re-running the handler on the same upload, against the bucket the first
      run left, when the converters return the same results and the same
      fault occurs, writes the same names with the same objects and ends the
      same way: thumbnails are overwritten, never duplicated. Under another
      fault the second run may write sizes the first run missed; that every
      write goes to one of the fixed destination names holds under any fault
      (`ImageOutputNames`, `DocumentOutputNames`). */
  lemma RerunIsIdempotent(objects: map<string, StoredObject>, bucketName: string, fileName: string,
                          conv: Converters, fault: Fault)
    ensures var (once, outcome) := Handle(objects, bucketName, fileName, conv, fault);
      Handle(once, bucketName, fileName, conv, fault) == (once, outcome)
  {
    var once := Handle(objects, bucketName, fileName, conv, fault).0;
    OnlyMarkedNamesChange(objects, bucketName, fileName, conv, fault);
    var route := Classify(fileName);
    if route.ImagePath? || route.PdfPath? || route.DocxPath? {
      assert !Contains(fileName, Marker);
      assert fileName in once <==> fileName in objects;
      assert fileName in objects ==> once[fileName] == objects[fileName];
      var stem := if route.ImagePath? then ImageStem(fileName) else DocumentStem(fileName);
      var ext := if route.ImagePath? then route.ext else "png";
      var rasterize: Blob -> Result<Raster, string> :=
        match route
        case ImagePath(_) => conv.imageMetadata
        case PdfPath => conv.pdfFirstPage
        case DocxPath => data => DocxRaster(conv, data);
      assert Handle(objects, bucketName, fileName, conv, fault) == Process(objects, bucketName, fileName, stem, ext, rasterize, fault);
      assert Handle(once, bucketName, fileName, conv, fault) == Process(once, bucketName, fileName, stem, ext, rasterize, fault);
      if fileName in objects && rasterize(objects[fileName].content).Ok? {
        GenerateIdempotent(objects, bucketName, fileName, stem, ext, rasterize(objects[fileName].content).value, fault);
      }
    }
  }
}
