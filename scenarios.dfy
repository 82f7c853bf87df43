/** Concrete uploads and what the handler does with them. Each scenario names
    its upload through a parameter fixed by `requires name == "..."` rather
    than writing the literal into the `ensures`: a literal argument would make
    the verifier evaluate `Classify` and `Split` on it eagerly, at a high cost. */
module Scenarios {
  import opened Strings
  import opened Naming
  import opened Classifier

  /** The facts the scenarios below share: a name `stem.ext` without an
      underscore carries no marker, its extension is `ext` lowercased and its
      document stem is `stem`. */
  lemma Routed(name: string, stem: string, ext: string)
    requires name == stem + "." + ext && '.' !in ext && '_' !in name
    ensures !Contains(name, Marker)
    ensures Extension(name) == Lower(ext)
    ensures DocumentStem(name) == stem
  {
    StemAndSegment(stem, ext);
    MissingHeadExcludes(name, Marker);
  }

  /** `photo.jpg` takes the image path with extension `jpg`. */
  lemma PhotoRoute(name: string)
    requires name == "photo.jpg"
    ensures Classify(name) == ImagePath("jpg")
  {
    Routed(name, "photo", "jpg");
    assert Lower("jpg") == "jpg";
    assert "jpg" in RasterExtensions;
  }

  /** `report.pdf` takes the PDF path with stem `report`. */
  lemma ReportRoute(name: string)
    requires name == "report.pdf"
    ensures Classify(name) == PdfPath
    ensures DocumentStem(name) == "report"
  {
    Routed(name, "report", "pdf");
    assert Lower("pdf") == "pdf";
  }

  /** `doc.docx` takes the DOCX path with stem `doc`. */
  lemma DocxRoute(name: string)
    requires name == "doc.docx"
    ensures Classify(name) == DocxPath
    ensures DocumentStem(name) == "doc"
  {
    Routed(name, "doc", "docx");
    assert Lower("docx") == "docx";
  }

  /** Only the last segment is dropped: inner dots stay in the stem. */
  lemma InnerDotsPreserved(name: string)
    requires name == "v1.2.pdf"
    ensures Classify(name) == PdfPath
    ensures DocumentStem(name) == "v1.2"
  {
    Routed(name, "v1.2", "pdf");
    assert Lower("pdf") == "pdf";
  }

  /** Extensions are compared after lowercasing: `SCAN.PDF` is a PDF. */
  lemma UppercasePdf(name: string)
    requires name == "SCAN.PDF"
    ensures Classify(name) == PdfPath
  {
    Routed(name, "SCAN", "PDF");
    assert Lower("PDF") == "pdf";
  }

  /** The image path keeps the lowercased extension for its output:
      `Holiday.JPEG` yields `jpeg` thumbnails. */
  lemma UppercaseJpeg(name: string)
    requires name == "Holiday.JPEG"
    ensures Classify(name) == ImagePath("jpeg")
  {
    Routed(name, "Holiday", "JPEG");
    assert Lower("JPEG") == "jpeg";
    assert "jpeg" in RasterExtensions;
  }

  /** Extensions outside the raster list, PDF and DOCX are unsupported. */
  lemma TextUnsupported(name: string)
    requires name == "notes.txt"
    ensures Classify(name) == Unsupported
  {
    Routed(name, "notes", "txt");
    assert Lower("txt") == "txt";
    assert "txt" !in RasterExtensions + ["pdf", "docx"];
  }

  /** A name that is nothing but `pdf` is its own extension: it takes the
      PDF path with an empty stem. */
  lemma BareExtensionName(name: string)
    requires name == "pdf"
    ensures Classify(name) == PdfPath
    ensures DocumentStem(name) == ""
  {
    ShorterExcludes(name, Marker);
    ExtensionWithoutDot(name);
    assert Lower("pdf") == "pdf";
  }

  /** A generated thumbnail name is recognised and not processed again. */
  lemma CoverIsAlreadyThumbnail(name: string)
    requires name == "cover_150x150_u_thumbnail.png"
    ensures Classify(name) == AlreadyThumbnail
  {
    assert name == "cover_150x150" + Marker + ".png";
    ContainsInfix("cover_150x150", Marker, ".png");
  }
}
