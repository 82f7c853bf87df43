/** Deterministic names: the fixed size labels, the stems taken from a
    source name, the destination object names and the public URLs. */
module Naming {
  import opened Strings
  import opened Wrappers

  /** The literal every thumbnail name carries and the classifier looks for. */
  const Marker := "_u_thumbnail"

  /** The cache directive every thumbnail is written with. */
  const CacheControl := "public, max-age=3600"

  /** The host part of every public URL. */
  const PublicHost := "https://storage.googleapis.com/"

  /** The size labels, in the order the loop walks them. */
  const Sizes: seq<string> := ["150x150", "300x300", "600x600", "640x360", "1280x720"]

  /** A bounding box a thumbnail is resized to fit inside. */
  datatype Target = Target(width: nat, height: nat)

  /** What `size.split('x').map(Number)` yields for each label of `Sizes`. */
  const Targets: seq<Target> :=
    [Target(150, 150), Target(300, 300), Target(600, 600), Target(640, 360), Target(1280, 720)]

  /** The `WxH` spelling of a box. */
  function Label(t: Target): string
  {
    Decimal(t.width) + "x" + Decimal(t.height)
  }

  /** `size.split('x').map(Number)`, destructured into width and height,
      for labels whose two leading parts are decimal numbers. */
  function ParseSize(size: string): Option<Target>
  {
    var parts := Split(size, 'x');
    if |parts| >= 2 && IsDecimal(parts[0]) && IsDecimal(parts[1])
    then Some(Target(ParseDecimal(parts[0]), ParseDecimal(parts[1])))
    else None
  }

  /** Parsing a box's label gives the box back. */
  lemma ParseLabel(t: Target)
    ensures ParseSize(Label(t)) == Some(t)
  {
    var w, h := Decimal(t.width), Decimal(t.height);
    DecimalRoundTrip(t.width);
    DecimalRoundTrip(t.height);
    DecimalWithout(t.width, 'x');
    DecimalWithout(t.height, 'x');
    assert Label(t) == w + ['x'] + h;
    SplitAround(w, h, 'x');
    SplitWithoutSeparator(w, 'x');
    SplitWithoutSeparator(h, 'x');
    assert Split(Label(t), 'x') == [w, h];
  }

  /** The decimal spellings the fixed boxes use. */
  lemma SizeDecimals()
    ensures Decimal(150) == "150" && Decimal(300) == "300" && Decimal(600) == "600"
    ensures Decimal(640) == "640" && Decimal(360) == "360"
    ensures Decimal(1280) == "1280" && Decimal(720) == "720"
  {
    assert Decimal(1280) == Decimal(128) + "0";
  }

  /** Each fixed label is the spelling of its box. */
  lemma SizesAreLabels()
    ensures |Sizes| == |Targets|
    ensures forall i :: 0 <= i < |Sizes| ==> Sizes[i] == Label(Targets[i])
  {
    SizeDecimals();
    assert Sizes[0] == Label(Targets[0]);
    assert Sizes[1] == Label(Targets[1]);
    assert Sizes[2] == Label(Targets[2]);
    assert Sizes[3] == Label(Targets[3]);
    assert Sizes[4] == Label(Targets[4]);
  }

  /** Parsing each fixed label gives its box. */
  lemma SizesParse()
    ensures |Sizes| == |Targets|
    ensures forall i :: 0 <= i < |Sizes| ==> ParseSize(Sizes[i]) == Some(Targets[i])
  {
    SizesAreLabels();
    forall i | 0 <= i < |Sizes| ensures ParseSize(Sizes[i]) == Some(Targets[i]) {
      ParseLabel(Targets[i]);
    }
  }

  /** Parsing one fixed label gives its box. */
  lemma SizeParses(i: nat)
    requires i < |Sizes|
    ensures i < |Targets| && ParseSize(Sizes[i]) == Some(Targets[i])
  {
    SizesParse();
  }

  /** No two fixed labels are equal. */
  lemma SizesDistinct()
    ensures forall i, j :: 0 <= i < j < |Sizes| ==> Sizes[i] != Sizes[j]
  {
    assert forall i :: 0 <= i < 3 ==> |Sizes[i]| == 7 && Sizes[i][0] == "136"[i];
    assert |Sizes[3]| == 7 && Sizes[3][1] == '4' && |Sizes[4]| == 8;
    assert Sizes[2][1] == '0';
  }

  /** The text after the last `.`, or the whole name when there is none:
      what `fileName.split('.').pop()` returns. */
  function LastSegment(name: string): (r: string)
    ensures '.' !in r
  {
    SplitPartsFree(name, '.');
    Last(Split(name, '.'))
  }

  /** The image path's stem: `split('.')` then `join('.')` with nothing
      popped in between, which gives back the whole name. */
  function ImageStem(name: string): (r: string)
    ensures r == name
  {
    JoinSplit(name, '.');
    Join(Split(name, '.'), '.')
  }

  /** The PDF and DOCX paths' stem: `split('.')`, `pop()`, `join('.')`.
      It is everything before the last `.`, or empty when there is no `.`. */
  function DocumentStem(name: string): (r: string)
    ensures '.' !in name ==> r == ""
    ensures '.' in name ==> name == r + "." + LastSegment(name)
  {
    var parts := Split(name, '.');
    JoinSplit(name, '.');
    SplitPartsFree(name, '.');
    if |parts| >= 2 then
      JoinDropLast(parts, '.');
      Join(DropLast(parts), '.')
    else
      assert name == parts[0];
      Join(DropLast(parts), '.')
  }

  /** For `stem.ext` with no `.` in `ext`, the last segment is `ext` and the
      document stem is `stem`, whatever dots `stem` holds. */
  lemma StemAndSegment(stem: string, ext: string)
    requires '.' !in ext
    ensures LastSegment(stem + "." + ext) == ext
    ensures DocumentStem(stem + "." + ext) == stem
  {
    SplitLastSegment(stem, ext, '.');
  }

  /** `${stem}_${size}_u_thumbnail.${ext}`. */
  function Destination(stem: string, size: string, ext: string): string
  {
    stem + "_" + size + Marker + "." + ext
  }

  /** Every destination name carries the marker. */
  lemma DestinationCarriesMarker(stem: string, size: string, ext: string)
    ensures Contains(Destination(stem, size, ext), Marker)
  {
    assert Destination(stem, size, ext) == (stem + "_" + size) + Marker + ("." + ext);
    ContainsInfix(stem + "_" + size, Marker, "." + ext);
  }

  /** Distinct labels give distinct destinations for the same stem and extension. */
  lemma DestinationInjective(stem: string, l1: string, l2: string, ext: string)
    requires Destination(stem, l1, ext) == Destination(stem, l2, ext)
    ensures l1 == l2
  {
    var d1, d2 := Destination(stem, l1, ext), Destination(stem, l2, ext);
    var k := |stem| + 1;
    assert |l1| == |l2|;
    assert d1[k..k + |l1|] == l1;
    assert d2[k..k + |l2|] == l2;
  }

  /** `https://storage.googleapis.com/${bucketName}/${objectName}`. */
  function PublicUrl(bucketName: string, objectName: string): string
  {
    PublicHost + bucketName + "/" + objectName
  }

  /** The key of a size in the thumbnails dictionary: `s${size}`. */
  function IndexKey(size: string): string
  {
    "s" + size
  }
}
