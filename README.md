# Thumbnail generation for uploads to a storage bucket

This project models the core of `index.js` in a Cloud Function. The
function reacts to an object uploaded to a Google Cloud Storage bucket and
writes thumbnails of it back into the same bucket.

The handler `generateThumbnail` handles the object `fileName` in this order:

1. If the name contains the marker `_u_thumbnail`, it is already a thumbnail
   and is left alone.
2. Otherwise, the name is dispatched on its last `.` segment, lowercased:
   - a raster image extension takes the image path;
   - `pdf` takes the PDF path;
   - `docx` takes the DOCX path;
   - anything else is unsupported and ignored.
3. Each path downloads the object and obtains one raster from it:
   - the image itself;
   - page one of the PDF;
   - page one of the PDF rendered from the DOCX's HTML.
4. The path then walks the fixed sizes `150x150`, `300x300`, `600x600`,
   `640x360` and `1280x720`, in that order.
   - A size is skipped when the raster is narrower or shorter than its box.
   - Every other size is resized and saved as
     `<stem>_<size>_u_thumbnail.<ext>`, with content type `image/<ext>` and
     cache directive `public, max-age=3600`.
   - The saved object is then made public.
   - Its public URL is recorded under the key `s<size>`.
5. The report `{name, thumbnails}` is built at the end.
6. Any throw ends the path at once. Nothing is rolled back, and no report is
   built.

What differs between the paths:

| path | stem | `<ext>` |
|---|---|---|
| image | the whole file name | the lowercased extension |
| PDF, DOCX | the name without its last segment | `png` |

The modules:

- `Strings`: the JavaScript string operations the handler relies on, with
  the laws that connect them. These are `split`, `pop`, `join`, `includes`,
  `toLowerCase` and `Number` on decimal text.
- `Naming`: the marker, the sizes and their boxes, the stems, the
  destination names and the public URLs.
- `Classifier`: the dispatch decision.
- `Storage`: the bucket, as a class over a map from names to objects. It has
  `Download`, `Save` and `MakePublic`.
- `Pipeline`:
  - the loop, as a method proved against a function of the old bucket
    (`Generate`);
  - the three paths and the handler, each proved against a function
    (`Process`, `Handle`).

  Failures are a parameter: `Fault` names the first store or resize call
  that throws. That is the download of an existing source, or the resize,
  save or make-public of one size inside the loop. The first throw leaves the
  whole block, so nothing after it runs. A missing source is a download
  failure whatever the fault says. The converters are the function fields of
  `Converters`, and each of them may fail.
- `ThumbnailLaws`: the properties those functions have.
- `Scenarios`: concrete names and what the classifier does with them.

The image path names its thumbnails after the whole file name, extension
included. `photo.jpg` yields `photo.jpg_150x150_u_thumbnail.jpg`, not
`photo_150x150_u_thumbnail.jpg`. The image path splits on `.` and joins
again without popping (`index.js:38-39`). Its variable is still named
`filenameWithoutExt`, and the PDF and DOCX paths do pop before joining
(`index.js:106-108`). The model follows the code as written.

## Model

| member | source | states |
|---|---|---|
| Strings.Split | index.js:16 | `split` always yields at least one part |
| Strings.Join | index.js:39 | `join`; `JoinSplit` and `SplitJoin` make it the inverse of `Split`, and `JoinDropLast` decomposes it at the last part |
| Strings.SplitPartsFree | index.js:16 | no part of a split contains the separator |
| Strings.JoinSplit | index.js:38-39 | joining what was split gives the original string back, which makes the image stem the whole name |
| Strings.SplitJoin | index.js:38-39 | splitting what was joined gives the parts back when no part holds the separator |
| Strings.SplitWithoutSeparator | index.js:16 | a string without the separator splits into itself alone |
| Strings.SplitAround | index.js:16 | splitting at one separator occurrence splits the two sides independently |
| Strings.SplitLastSegment | index.js:106-108 | for `stem.ext` with no dot in `ext`, `pop` yields `ext` and joining the rest yields `stem`, inner dots included |
| Strings.JoinDropLast | index.js:106-108 | a join is the join of all but the last part, the separator, then the last part |
| Strings.ContainsInfix | index.js:21 | a string built around the marker includes it |
| Strings.Contains | index.js:21 | `includes`; `ContainsIff` characterises it as "the string is built around an occurrence" |
| Strings.ContainsOccurs | index.js:21 | a string that includes `sub` is `a + sub + b` for some `a` and `b`: no name without the marker is taken for a thumbnail |
| Strings.ContainsIff | index.js:21 | `includes` holds exactly when the string is `a + sub + b` for some `a` and `b` |
| Strings.ShorterExcludes | index.js:21 | a string shorter than the marker does not include it |
| Strings.MissingHeadExcludes | index.js:21 | a string without the marker's first character does not include it |
| Strings.Last | index.js:17 | the element `pop()` removes; `SplitLastSegment` states it is `ext` for `stem.ext`, and `JoinDropLast` that the name is the rest joined, a dot, then it |
| Strings.DropLast | index.js:107 | what `pop()` leaves; `SplitLastSegment` states joining it gives `stem` for `stem.ext`, inner dots included |
| Strings.Lower | index.js:17 | lowercasing keeps the length and lowers each character on its own |
| Strings.Decimal | index.js:57 | the decimal spelling of a box dimension; `DecimalRoundTrip` makes `ParseDecimal` its inverse |
| Strings.ParseDecimal | index.js:57 | `Number` on a run of decimal digits; `DecimalRoundTrip` states it reads back `Decimal` |
| Strings.DecimalRoundTrip | index.js:57 | `Number` reads back the decimal spelling of every natural number, and that spelling is all digits |
| Strings.DecimalWithout | index.js:57 | a decimal spelling never contains the `x` separator |
| Naming.ParseLabel | index.js:57 | `size.split('x').map(Number)` on the label of a box gives that box back |
| Naming.SizeDecimals | index.js:41 | the decimal spellings of the widths and heights the labels use |
| Naming.SizesAreLabels | index.js:41 | each of the five fixed labels is the `WxH` spelling of its box |
| Naming.SizesParse | index.js:57 | parsing each fixed label gives its box: 150x150, 300x300, 600x600, 640x360, 1280x720 |
| Naming.SizeParses | index.js:57 | the same, for one label |
| Naming.SizesDistinct | index.js:41 | the five labels are pairwise distinct |
| Naming.ParseSize | index.js:57 | `size.split('x').map(Number)` destructured into width and height; `ParseLabel` and `SizesParse` state what it yields |
| Naming.LastSegment | index.js:16-17 | the popped segment never contains a dot |
| Naming.ImageStem | index.js:38-39 | the image path's stem equals the whole file name |
| Naming.DocumentStem | index.js:106-108 | the document stem is empty for a name without a dot; otherwise the name is the stem, a dot, then the last segment |
| Naming.StemAndSegment | index.js:106-108 | for `stem.ext` with no dot in `ext`, the last segment is `ext` and the document stem is `stem` |
| Naming.DestinationCarriesMarker | index.js:65 | every destination name contains `_u_thumbnail` |
| Naming.DestinationInjective | index.js:65 | for one stem and extension, equal destinations mean equal labels |
| Naming.Destination | index.js:65 | the thumbnail name `<stem>_<size>_u_thumbnail.<ext>`, also used at lines 140 and 250 with `png`; `DestinationCarriesMarker`, `DestinationInjective` and `DestinationIsThumbnail` characterise it |
| Naming.PublicUrl | index.js:88 | `https://storage.googleapis.com/<bucket>/<object>`; `CompleteRunReportsAll` states it is the value recorded per size |
| Naming.IndexKey | index.js:88 | the dictionary key `s<size>`; `IndexKeysDistinct` states distinct sizes never share a key |
| Classifier.Classify | index.js:15-33 | each route holds exactly when its condition does: the marker first, then the raster list, `pdf`, `docx`, otherwise unsupported; the image route carries the lowercased extension |
| Classifier.Extension | index.js:16-17 | the popped last segment, lowercased; `ClassifyByExtension` and `ExtensionWithoutDot` state its value |
| Classifier.AlreadyThumbnailIffMarked | index.js:21 | a name is rejected as already a thumbnail exactly when it is `a + "_u_thumbnail" + b` for some `a` and `b` |
| Classifier.ClassifyByExtension | index.js:16-30 | an unmarked `stem.ext` is routed by `ext` alone, compared without regard to ASCII case |
| Classifier.ExtensionWithoutDot | index.js:16-17 | a name without a dot is its own extension |
| Classifier.DestinationIsThumbnail | index.js:21 | every name the handler writes, on any path, is classified as already a thumbnail |
| Storage.Bucket.constructor | index.js:42 | the bucket has the given name and contents |
| Storage.Bucket.Download | index.js:47 | the content of an existing object, and nothing for a missing one |
| Storage.Bucket.Save | index.js:74-79 | creates or replaces exactly that object, with the given content and metadata, not public |
| Storage.Bucket.MakePublic | index.js:84 | makes that object public and changes nothing else |
| Pipeline.DocxRaster | index.js:194-232 | the DOCX chain: HTML conversion, PDF rendering, page-one rasterization, with the first failing stage ending it; `CreateDocxThumbnail` is proved against it |
| Pipeline.Fits | index.js:60 | the size-skip test; `SizeSkipLaw` states it in terms of the box width and height |
| Pipeline.Produced | index.js:56-63 | the labels among the first `k` sizes that the loop does not skip, in list order; `ProducedPrefix` and `SizeSkipLaw` state which labels are in it, `EverythingFits` and `PortraitPageSkipsWidest` its exact value, and `ThumbsCount` and `LinksCount` that it has as many labels as the bucket gets thumbnails and the report gets entries |
| Pipeline.Thumb | index.js:67-84 | the object one size leaves once saved and made public: the resized raster, type `image/<ext>`, the cache directive, public; `ThumbsExact` and `CompleteRunPublishesAll` state it is what each fitting destination holds |
| Pipeline.Stops | index.js:45-101 | the fault is met: it names a size the loop does not skip; `FailureKeepsEarlierSizes` states what a met fault leaves, and `CompleteRunPublishesAll` and `CompleteRunReportsAll` what a run leaves otherwise |
| Pipeline.Thumbs | index.js:65-84 | the objects the first `k` sizes write; `ThumbsExact` and `ThumbsCount` give its exact keys, values and size |
| Pipeline.Links | index.js:88 | the dictionary after the first `k` sizes; `LinksExact` and `LinksCount` give its exact keys, values and size |
| Pipeline.Generate | index.js:56-98 | the bucket and outcome after the loop and the report; `GenerateSizes` is proved equal to it, and `FailureKeepsEarlierSizes`, `CompleteRunPublishesAll`, `CompleteRunReportsAll`, `GenerateWritesOnlyDestinations` and `GenerateIdempotent` state its properties |
| Pipeline.Process | index.js:45-101 | one path: download, conversion, then `Generate`; `ProcessUpload` is proved equal to it and `ProcessWritesOnlyDestinations` constrains it |
| Pipeline.Handle | index.js:9-34 | the whole invocation; `GenerateThumbnail` is proved equal to it, and `OnlyMarkedNamesChange`, `RerunIsIdempotent`, `MarkedNameIsIgnored`, `UnsupportedIsIgnored`, `DocumentOutputNames` and `ImageOutputNames` state its properties |
| Pipeline.ParseTarget | index.js:57 | the box parsed from the `i`-th label is the `i`-th target |
| Pipeline.WriteSize | index.js:65-84 | resize, save and make-public for one size: without a fault the destination holds the public thumbnail; a failed publish leaves it saved but private; an earlier failure leaves the bucket unchanged |
| Pipeline.GenerateSizes | index.js:56-98 | the bucket and the outcome after the loop equal `Generate` of the old bucket |
| Pipeline.ProcessUpload | index.js:45-101 | download, then conversion, then the loop; a missing object, a throwing download or a failed conversion writes nothing |
| Pipeline.CreateImageThumbnail | index.js:36-102 | the image path, with the whole name as stem and the lowercased extension |
| Pipeline.CreatePdfThumbnail | index.js:104-177 | the PDF path, with the document stem and `png` |
| Pipeline.CreateDocxThumbnail | index.js:179-287 | the DOCX path: HTML conversion, PDF rendering, then rasterizing page one; the first failing stage ends it |
| Pipeline.GenerateThumbnail | index.js:9-34 | the handler equals `Handle` of the old bucket: it dispatches on `Classify` and runs the chosen path |
| ThumbnailLaws.DestinationsDistinct | index.js:65 | distinct sizes get distinct destination names |
| ThumbnailLaws.IndexKeysDistinct | index.js:88 | distinct sizes get distinct dictionary keys |
| ThumbnailLaws.ProducedPrefix | index.js:56-63 | among the first `k` sizes, a label is produced exactly when its box fits |
| ThumbnailLaws.SizeSkipLaw | index.js:60-63 | label `WxH` is produced exactly when the raster is at least `W` wide and at least `H` tall |
| ThumbnailLaws.ThumbsExact | index.js:65-84 | the objects written are exactly the destinations of the fitting sizes, each public, typed `image/<ext>`, with the cache directive and the resized content |
| ThumbnailLaws.LinksExact | index.js:88 | the dictionary holds exactly one key `s<label>` per fitting size, mapped to the public URL of its destination |
| ThumbnailLaws.LaterDestinationAbsent | index.js:65 | a later size's destination is not among the objects of earlier sizes |
| ThumbnailLaws.LaterKeyAbsent | index.js:88 | a later size's key is not among the earlier keys |
| ThumbnailLaws.ThumbsCount | index.js:56-84 | the number of objects written equals the number of labels produced |
| ThumbnailLaws.LinksCount | index.js:88 | the number of dictionary entries equals the number of labels produced |
| ThumbnailLaws.NothingFits | index.js:60-63 | when no box fits, nothing is produced, written or indexed |
| ThumbnailLaws.SmallSourceYieldsNothing | index.js:56-95 | a raster under 150 pixels in either dimension leaves the bucket unchanged and reports an empty dictionary, whatever the fault |
| ThumbnailLaws.EverythingFits | index.js:56-63 | when every box among the first `k` fits, `Produced` is exactly the first `k` labels, in list order |
| ThumbnailLaws.LargeSourceYieldsAll | index.js:60-63 | a raster of at least 1280x720 gets all five labels |
| ThumbnailLaws.LargeSourceRun | index.js:56-95 | a fault-free run on such a raster writes all five destinations and reports five URLs |
| ThumbnailLaws.PortraitPageSkipsWidest | index.js:60-63 | for a 794x1123 raster, `Produced` is the first four labels; 1280x720 is skipped |
| ThumbnailLaws.FailureKeepsEarlierSizes | index.js:56-101 | a throw at size `at` gives no report; earlier fitting sizes are written and public; later sizes are not written; a failed make-public leaves `at` saved but private |
| ThumbnailLaws.CompleteRunPublishesAll | index.js:65-84 | without a throw, every fitting size is written and public with its metadata and content, and every other object is unchanged |
| ThumbnailLaws.CompleteRunReportsAll | index.js:88-95 | without a throw, the report names the source and maps exactly the fitting sizes' keys to their public URLs |
| ThumbnailLaws.GenerateWritesOnlyDestinations | index.js:56-89 | the loop deletes nothing, and it creates or changes only the destinations of sizes the raster fits: a skipped size is never written |
| ThumbnailLaws.ProcessWritesOnlyDestinations | index.js:45-101 | the same for a whole path: a write happens only after the source was downloaded and converted, and only to a destination of a size its raster fits |
| ThumbnailLaws.DocumentOutputNames | index.js:140 | on the PDF and DOCX paths every object written is named `<stem>_<label>_u_thumbnail.png` |
| ThumbnailLaws.ImageOutputNames | index.js:65 | on the image path every object written is named `<full name>_<label>_u_thumbnail.<lowercased ext>` |
| ThumbnailLaws.GenerateTouchesOnlyMarked | index.js:65 | every name the loop creates or changes carries the marker, and nothing is deleted |
| ThumbnailLaws.ProcessTouchesOnlyMarked | index.js:45-101 | the same for a whole path |
| ThumbnailLaws.OnlyMarkedNamesChange | index.js:9-34 | the handler only creates or changes marked names and never deletes |
| ThumbnailLaws.MarkedNameIsIgnored | index.js:31-33 | a marked upload is not dispatched and causes no write, whatever its extension |
| ThumbnailLaws.UnsupportedIsIgnored | index.js:28-30 | an unsupported extension causes no write and no error |
| ThumbnailLaws.GenerateIdempotent | index.js:56-89 | running the loop again on its own result changes nothing and ends the same way |
| ThumbnailLaws.RerunIsIdempotent | index.js:9-34 | handling the same upload again, on the bucket the first run left, when the converters return the same results and the same fault occurs, gives the same bucket and outcome: thumbnails are overwritten, never duplicated. Under a different fault a rerun may write sizes the first run missed; `ImageOutputNames` and `DocumentOutputNames` state that, under any fault, every write goes to one of the fixed destination names |
| Scenarios.Routed | index.js:15-17 | an underscore-free `stem.ext` carries no marker, has extension `ext` lowercased, and has document stem `stem` |
| Scenarios.PhotoRoute | index.js:22 | `photo.jpg` takes the image path with extension `jpg` |
| Scenarios.ReportRoute | index.js:24 | `report.pdf` takes the PDF path with stem `report` |
| Scenarios.DocxRoute | index.js:26 | `doc.docx` takes the DOCX path with stem `doc` |
| Scenarios.InnerDotsPreserved | index.js:106-108 | `v1.2.pdf` has stem `v1.2`: only the last segment is dropped |
| Scenarios.UppercasePdf | index.js:17 | `SCAN.PDF` takes the PDF path |
| Scenarios.UppercaseJpeg | index.js:17 | `Holiday.JPEG` takes the image path with the lowercased extension `jpeg` |
| Scenarios.TextUnsupported | index.js:28-30 | `notes.txt` is unsupported |
| Scenarios.BareExtensionName | index.js:106-108 | the name `pdf` takes the PDF path with an empty stem |
| Scenarios.CoverIsAlreadyThumbnail | index.js:21 | `cover_150x150_u_thumbnail.png` is recognised as already a thumbnail |

## Left out

- I/O: the storage client, the cloud-event framework and the network are left out. The bucket is a map. The `Fault` parameter stands for a throw from the download of an existing object (`DownloadThrows`) and for a throw from resize, save or make-public inside the loop (`Fails`). A missing object always makes the download fail.
- Pixels: sharp's metadata reading and resizing are left out. The pixel work of resizing is not modelled: a thumbnail's content is the value `Resized(source, box)`.
- Metadata: the model assumes sharp reports a width and a height. If the metadata had none, every comparison at `index.js:60` would be false and no size would be skipped; that case is not modelled.
- Converters: pdf-to-img, mammoth and html-pdf-node are the opaque fields of `Converters`. There is one function per external call, and each may fail with a message.
- HTML page: the HTML template of `index.js:197-218` and the A4 page options are folded into the `htmlToPdf` field. They are not modelled as text.
- Logging and the TODO callback: console logging is left out. The report is the `Reported` outcome; the source only logs it.
- Errors: every caught error ends in a `Failed` outcome. Its message is not kept beyond the failing stage.
- Concurrency: async/await ordering and concurrent invocations on the same bucket are not modelled. Each invocation is one sequential run.
- Strings.Lower: lowers ASCII letters only, unlike JavaScript `toLowerCase`. Every decision and output still agrees: the three extension checks (the raster list, `pdf` and `docx`) compare with ASCII-only strings. Only the Kelvin sign U+212A (to `k`) and U+0130 (to `i` plus a combining dot) lower to ASCII or partly ASCII. No listed extension contains `k`. U+0130 lowers to a two-character string containing a non-ASCII mark, which matches no listed extension.
- Naming.ParseSize: models `Number` only on the decimal text of the fixed labels. Hex, whitespace and empty-string coercion never occur there.
- Storage.Bucket.Save: models a replacement as a new, non-public object. A re-run therefore makes each thumbnail public again.
- Storage.Bucket.MakePublic: requires an existing object. The loop calls it only right after `Save`.
- Pipeline.GenerateSizes: the order of the writes and the key order of the report's `thumbnails` object are not modelled. The source writes the sizes in list order and inserts the keys in that order, and a JavaScript object keeps that order for such keys. The bucket and the dictionary are maps here, so only `Produced` carries list order; no contract ties it to the loop's write order or to the report's key order.
- Pipeline.GenerateSizes: one method models all three copies of the loop (`index.js:56-89`, `131-164`, `241-274`). They differ only in the stem and the extension, which are parameters.
