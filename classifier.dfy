/** The upload handler's dispatch: which conversion path, if any, an
    uploaded object name takes. */
module Classifier {
  import opened Strings
  import opened Naming

  /** The extensions the image path accepts, as listed by the handler. */
  const RasterExtensions: seq<string> := ["png", "jpg", "jpeg", "gif", "webp", "tiff", "tif", "svg", "bmp"]

  /** Where an uploaded name is sent. The image path carries the lowercased
      extension, which becomes the thumbnails' extension and content type. */
  datatype Route =
    | AlreadyThumbnail
    | ImagePath(ext: string)
    | PdfPath
    | DocxPath
    | Unsupported

  /** `fileName.split('.').pop().toLowerCase()`. */
  function Extension(name: string): string
  {
    Lower(LastSegment(name))
  }

  /** The handler's decision. A marked name is rejected before its extension
      is looked at; the three extension sets are disjoint, so the order of the
      tests only matters for the marker. */
  function Classify(name: string): (r: Route)
    ensures r == AlreadyThumbnail <==> Contains(name, Marker)
    ensures r.ImagePath? <==> !Contains(name, Marker) && Extension(name) in RasterExtensions
    ensures r.ImagePath? ==> r.ext == Extension(name)
    ensures r == PdfPath <==> !Contains(name, Marker) && Extension(name) == "pdf"
    ensures r == DocxPath <==> !Contains(name, Marker) && Extension(name) == "docx"
    ensures r == Unsupported <==>
      !Contains(name, Marker) && Extension(name) !in RasterExtensions + ["pdf", "docx"]
  {
    if Contains(name, Marker) then AlreadyThumbnail
    else
      var ext := Extension(name);
      if ext in RasterExtensions then ImagePath(ext)
      else if ext == "pdf" then PdfPath
      else if ext == "docx" then DocxPath
      else Unsupported
  }

  /** A name `stem.ext` without the marker is routed by `ext` alone,
      compared without regard to ASCII case. */
  lemma ClassifyByExtension(stem: string, ext: string)
    requires '.' !in ext
    requires !Contains(stem + "." + ext, Marker)
    ensures Extension(stem + "." + ext) == Lower(ext)
    ensures Lower(ext) in RasterExtensions ==> Classify(stem + "." + ext) == ImagePath(Lower(ext))
    ensures Lower(ext) == "pdf" ==> Classify(stem + "." + ext) == PdfPath
    ensures Lower(ext) == "docx" ==> Classify(stem + "." + ext) == DocxPath
    ensures Lower(ext) !in RasterExtensions + ["pdf", "docx"] ==> Classify(stem + "." + ext) == Unsupported
  {
    StemAndSegment(stem, ext);
  }

  /** A name is taken for a thumbnail exactly when the marker occurs in it. */
  lemma AlreadyThumbnailIffMarked(name: string)
    ensures Classify(name) == AlreadyThumbnail <==> exists a, b :: name == a + Marker + b
  {
    ContainsIff(name, Marker);
  }

  /** A name without any `.` is its own extension. */
  lemma ExtensionWithoutDot(name: string)
    requires '.' !in name
    ensures Extension(name) == Lower(name)
  {
    SplitWithoutSeparator(name, '.');
  }

  /** Every destination name, on any path, is rejected as already a thumbnail. */
  lemma DestinationIsThumbnail(stem: string, size: string, ext: string)
    ensures Classify(Destination(stem, size, ext)) == AlreadyThumbnail
  {
    DestinationCarriesMarker(stem, size, ext);
  }
}
