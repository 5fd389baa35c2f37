/**
 * The upload handler (`src/pages/api/upload.js`): every uploaded image is
 * stored under a timestamped name, shrunk by a random amount from its
 * top-left corner, and the successful crops are bundled into one zip whose
 * download link is returned.
 *
 * The libraries are replaced by their answers: Jimp's decoding by the
 * bitmap size it reports (or a failure), each `Math.random()` by a draw in
 * [0, 1), each `Date.now()` by the millisecond it returned, the image write
 * and the archive stream by whether they succeed.
 */
module Upload {
  import PosixPath
  import opened Wrappers

  const UploadDir := "./tmp/uploads"
  const OutputDir := "./tmp/cropped"
  const CroppedPrefix := "cropped-"
  const DownloadLink := "/api/download?file=cropped-images.zip"
  const SuccessMessage := "Images cropped and saved successfully."
  const NothingCroppedMessage := "No images cropped."
  const FailureMessage := "An error occurred during file upload or cropping."
  const MethodNotAllowedMessage := "Method not allowed"

  /** The ranges the two reductions are drawn from. */
  const MinWidthReduction := 40
  const MaxWidthReduction := 60
  const MinHeightReduction := 40
  const MaxHeightReduction := 70

  // ---------------------------------------------------------------------
  // getRandomInt

  /** A value returned by `Math.random()`. */
  type Draw = u: real | 0.0 <= u < 1.0

  /** `getRandomInt(min, max)` when `Math.random()` returned `u`. */
  function GetRandomInt(min: int, max: int, u: Draw): (r: int)
    ensures min <= max ==> min <= r <= max
  {
    var span := (max - min + 1) as real;
    assert min <= max ==> u * span < span;
    (u * span).Floor + min
  }

  /** Every integer of [min, max] is drawn for some value of `Math.random()`. */
  lemma GetRandomIntReaches(min: int, max: int, k: int) returns (u: Draw)
    requires min <= k <= max
    ensures GetRandomInt(min, max, u) == k
  {
    var span := (max - min + 1) as real;
    u := (k - min) as real / span;
    assert u * span == (k - min) as real;
  }

  // ---------------------------------------------------------------------
  // cropImage: geometry and guard

  /** The size Jimp reports for a decoded image. */
  datatype Bitmap = Bitmap(width: nat, height: nat)

  /** A rectangle of pixels: its top-left corner and its size. */
  datatype Region = Region(x: int, y: int, width: int, height: int)

  /** A width reduction `getRandomInt(40, 60)` can return. */
  type WidthReduction = r: int | MinWidthReduction <= r <= MaxWidthReduction witness MinWidthReduction

  /** A height reduction `getRandomInt(40, 70)` can return. */
  type HeightReduction = r: int | MinHeightReduction <= r <= MaxHeightReduction witness MinHeightReduction

  /** The reductions `cropImage` draws are exactly the values of the two types above. */
  lemma DrawnReductions(uw: Draw, uh: Draw, wr: WidthReduction, hr: HeightReduction)
    ensures MinWidthReduction <= GetRandomInt(MinWidthReduction, MaxWidthReduction, uw) <= MaxWidthReduction
    ensures MinHeightReduction <= GetRandomInt(MinHeightReduction, MaxHeightReduction, uh) <= MaxHeightReduction
    ensures exists u: Draw :: GetRandomInt(MinWidthReduction, MaxWidthReduction, u) == wr
    ensures exists u: Draw :: GetRandomInt(MinHeightReduction, MaxHeightReduction, u) == hr
  {
    var u1 := GetRandomIntReaches(MinWidthReduction, MaxWidthReduction, wr);
    var u2 := GetRandomIntReaches(MinHeightReduction, MaxHeightReduction, hr);
  }

  /** The reductions drawn for one image and the size they leave. */
  datatype Geometry = Geometry(widthReduction: int, heightReduction: int, newWidth: int, newHeight: int)

  /** The new size of `b` after the reductions `wr` (width) and `hr` (height). */
  function CropGeometry(b: Bitmap, wr: WidthReduction, hr: HeightReduction): (g: Geometry)
    ensures g.widthReduction == wr && g.heightReduction == hr
    ensures b.width - MaxWidthReduction <= g.newWidth <= b.width - MinWidthReduction
    ensures b.height - MaxHeightReduction <= g.newHeight <= b.height - MinHeightReduction
  {
    Geometry(wr, hr, b.width - wr, b.height - hr)
  }

  /** The guard: the crop happens only when both new dimensions are positive. */
  predicate CanCrop(g: Geometry)
  {
    g.newWidth > 0 && g.newHeight > 0
  }

  /** `r` lies inside an image of size `b`. */
  predicate Within(r: Region, b: Bitmap)
  {
    0 <= r.x && 0 <= r.y && r.x + r.width <= b.width && r.y + r.height <= b.height
  }

  /** The guard holds for every draw exactly when the image is wider than 60 and taller than 70. */
  lemma CropAlwaysFits(b: Bitmap)
    ensures (forall wr: WidthReduction, hr: HeightReduction :: CanCrop(CropGeometry(b, wr, hr)))
        <==> b.width > MaxWidthReduction && b.height > MaxHeightReduction
  {
    if !(b.width > MaxWidthReduction && b.height > MaxHeightReduction) {
      assert !CanCrop(CropGeometry(b, MaxWidthReduction, MaxHeightReduction));
    }
  }

  /** The guard fails for every draw exactly when the image is at most 40 wide or at most 40 tall. */
  lemma CropNeverFits(b: Bitmap)
    ensures (forall wr: WidthReduction, hr: HeightReduction :: !CanCrop(CropGeometry(b, wr, hr)))
        <==> b.width <= MinWidthReduction || b.height <= MinHeightReduction
  {
    if b.width > MinWidthReduction && b.height > MinHeightReduction {
      assert CanCrop(CropGeometry(b, MinWidthReduction, MinHeightReduction));
    }
  }

  // ---------------------------------------------------------------------
  // cropImage: naming and outcome

  /** What `Jimp.read` makes of a stored upload. */
  datatype Decoding = Unreadable | Decoded(bitmap: Bitmap)

  /**
   * What `cropImage` did with one image. Only `Saved` and `WriteFailed`
   * attempted a write; only `Saved` makes it return a path (the others
   * return null).
   */
  datatype CropOutcome =
    | Saved(outputPath: string, region: Region)
    | WriteFailed(outputPath: string, region: Region)
    | TooSmall(geometry: Geometry)
    | ReadFailed

  /** A plain name joined onto "./tmp/<sub>" lands directly in "tmp/<sub>". */
  lemma JoinTmpChild(dir: string, sub: string, name: string)
    requires dir == "./tmp/" + sub && PosixPath.Plain(sub)
    requires PosixPath.Plain(name)
    ensures PosixPath.JoinPaths([dir, name]) == "tmp/" + sub + "/" + name
    ensures PosixPath.Basename(PosixPath.JoinPaths([dir, name])) == name
  {
    assert dir == "." + "/" + "tmp" + "/" + sub;
    PosixPath.SplitThree(".", "tmp", sub);
    var segs := ["tmp", sub];
    assert PosixPath.AllPlain(segs) by {
      assert PosixPath.Plain("tmp");
    }
    assert PosixPath.Split(dir) == ["."] + segs;
    PosixPath.JoinDotDirChild(dir, segs, name);
    assert PosixPath.Join(segs) == "tmp/" + sub by {
      assert PosixPath.Join(segs) == "tmp" + "/" + PosixPath.Join([sub]);
      assert "tmp/" == "tmp" + "/";
    }
  }

  /** The prefix "tmp/cropped/" spelled out piece by piece. */
  lemma CroppedDirLiteral(name: string)
    ensures "tmp/" + "cropped" + "/" + name == "tmp/cropped/" + name
  {
    assert "tmp/" + "cropped" + "/" == "tmp/cropped/";
  }

  /** Where `cropImage` writes the crop of `imagePath`: `path.join(OutputDir, 'cropped-' + basename)`. */
  function OutputPath(imagePath: string): (out: string)
  {
    PosixPath.JoinPaths([OutputDir, CroppedPrefix + PosixPath.Basename(imagePath)])
  }

  /** A name starting with "cropped-" and holding no separator is a plain segment. */
  lemma CroppedNamePlain(base: string)
    requires '/' !in base
    ensures PosixPath.Plain(CroppedPrefix + base)
  {
    var name := CroppedPrefix + base;
    assert name[0] == 'c';
    forall i | 0 <= i < |name| ensures name[i] != '/' {
      if i >= |CroppedPrefix| { assert name[i] == base[i - |CroppedPrefix|]; }
    }
  }

  /** The crop of `imagePath` goes directly into "tmp/cropped", named after the input's basename. */
  lemma OutputPathShape(imagePath: string)
    ensures OutputPath(imagePath) == "tmp/cropped/" + CroppedPrefix + PosixPath.Basename(imagePath)
    ensures PosixPath.Basename(OutputPath(imagePath)) == CroppedPrefix + PosixPath.Basename(imagePath)
  {
    var name := CroppedPrefix + PosixPath.Basename(imagePath);
    CroppedNamePlain(PosixPath.Basename(imagePath));
    assert OutputDir == "./tmp/" + "cropped";
    JoinTmpChild(OutputDir, "cropped", name);
    CroppedDirLiteral(name);
  }

  /**
   * `cropImage(imagePath)` when Jimp decodes the file as `decoding`, the
   * reductions drawn are `wr` and `hr`, and the write of the crop succeeds
   * when `writeSucceeds`.
   */
  function CropImage(imagePath: string, decoding: Decoding, wr: WidthReduction, hr: HeightReduction, writeSucceeds: bool): (c: CropOutcome)
    ensures c.ReadFailed? <==> decoding.Unreadable?
    ensures c.TooSmall? ==> decoding.Decoded? && c.geometry == CropGeometry(decoding.bitmap, wr, hr) && !CanCrop(c.geometry)
    ensures c.Saved? <==> decoding.Decoded? && CanCrop(CropGeometry(decoding.bitmap, wr, hr)) && writeSucceeds
    ensures c.Saved? || c.WriteFailed? ==>
      && decoding.Decoded?
      && c.outputPath == "tmp/cropped/" + CroppedPrefix + PosixPath.Basename(imagePath)
      && c.region == Region(0, 0, decoding.bitmap.width - wr, decoding.bitmap.height - hr)
      && Within(c.region, decoding.bitmap)
      && 0 < c.region.width < decoding.bitmap.width
      && 0 < c.region.height < decoding.bitmap.height
  {
    OutputPathShape(imagePath);
    match decoding
    case Unreadable => ReadFailed
    case Decoded(b) =>
      var g := CropGeometry(b, wr, hr);
      if CanCrop(g) then
        var region := Region(0, 0, g.newWidth, g.newHeight);
        if writeSucceeds then Saved(OutputPath(imagePath), region)
        else WriteFailed(OutputPath(imagePath), region)
      else TooSmall(g)
  }

  // ---------------------------------------------------------------------
  // multer's filename rule

  /** The character of the decimal digit `d`. */
  function DigitChar(d: nat): (c: char)
    requires d < 10
    ensures '0' <= c <= '9'
  {
    ('0' as int + d) as char
  }

  /** The characters are all decimal digits. */
  predicate AllDigits(s: string)
  {
    forall i :: 0 <= i < |s| ==> '0' <= s[i] <= '9'
  }

  /** How JavaScript writes the integer `n` in a string. */
  function DecimalString(n: nat): (s: string)
    ensures |s| >= 1 && AllDigits(s)
  {
    if n < 10 then [DigitChar(n)] else DecimalString(n / 10) + [DigitChar(n % 10)]
  }

  /** The number a string of digits stands for. */
  function DecimalValue(s: string): (n: nat)
    requires AllDigits(s)
  {
    if s == [] then 0 else DecimalValue(s[..|s| - 1]) * 10 + (s[|s| - 1] as int - '0' as int)
  }

  /** Reading back the decimal string of `n` gives `n`. */
  lemma {:induction false} DecimalRoundTrip(n: nat)
    ensures DecimalValue(DecimalString(n)) == n
  {
    if n >= 10 {
      DecimalRoundTrip(n / 10);
      var s := DecimalString(n);
      assert s[..|s| - 1] == DecimalString(n / 10);
    }
  }

  /** The name multer stores an upload under: `Date.now() + '-' + originalname`. */
  function StoredFilename(receivedAt: nat, originalname: string): (name: string)
    ensures |name| > |originalname| && '0' <= name[0] <= '9'
    ensures name[|name| - |originalname|..] == originalname
  {
    DecimalString(receivedAt) + "-" + originalname
  }

  /** Two uploads share a stored name only if they share the millisecond and the original name. */
  lemma StoredFilenameInjective(t1: nat, n1: string, t2: nat, n2: string)
    requires StoredFilename(t1, n1) == StoredFilename(t2, n2)
    ensures t1 == t2 && n1 == n2
  {
    var d1, d2 := DecimalString(t1), DecimalString(t2);
    var s := StoredFilename(t1, n1);
    assert s[|d1|] == '-';
    assert s[|d2|] == '-';
    assert d1 == s[..|d1|] == d2;
    DecimalRoundTrip(t1);
    DecimalRoundTrip(t2);
    assert n1 == s[|d1| + 1..] == n2;
  }

  /** A stored name is never "", "." or "..": it starts with a digit. */
  lemma StoredFilenamePlain(receivedAt: nat, originalname: string)
    requires '/' !in originalname
    ensures '0' <= StoredFilename(receivedAt, originalname)[0] <= '9'
    ensures PosixPath.Plain(StoredFilename(receivedAt, originalname))
  {
    var d := DecimalString(receivedAt);
    assert StoredFilename(receivedAt, originalname)[0] == d[0];
  }

  /** The path multer reports for a stored upload: `path.join(destination, filename)`. */
  function StoredPath(receivedAt: nat, originalname: string): (stored: string)
  {
    PosixPath.JoinPaths([UploadDir, StoredFilename(receivedAt, originalname)])
  }

  /** The prefix "tmp/uploads/" spelled out piece by piece. */
  lemma UploadsDirLiteral(name: string)
    ensures "tmp/" + "uploads" + "/" + name == "tmp/uploads/" + name
  {
    assert "tmp/" + "uploads" + "/" == "tmp/uploads/";
  }

  /** A plain name joined onto `UploadDir` lands directly in "tmp/uploads". */
  lemma UploadsChild(name: string)
    requires PosixPath.Plain(name)
    ensures PosixPath.JoinPaths([UploadDir, name]) == "tmp/uploads/" + name
    ensures PosixPath.Basename(PosixPath.JoinPaths([UploadDir, name])) == name
  {
    var joined := PosixPath.JoinPaths([UploadDir, name]);
    assert joined == "tmp/" + "uploads" + "/" + name && PosixPath.Basename(joined) == name by {
      assert UploadDir == "./tmp/" + "uploads";
      JoinTmpChild(UploadDir, "uploads", name);
    }
    UploadsDirLiteral(name);
  }

  /** A stored upload lives directly in "tmp/uploads" under its stored name. */
  lemma StoredPathShape(receivedAt: nat, originalname: string)
    requires '/' !in originalname
    ensures StoredPath(receivedAt, originalname) == "tmp/uploads/" + StoredFilename(receivedAt, originalname)
    ensures PosixPath.Basename(StoredPath(receivedAt, originalname)) == StoredFilename(receivedAt, originalname)
  {
    StoredFilenamePlain(receivedAt, originalname);
    UploadsChild(StoredFilename(receivedAt, originalname));
  }

  // ---------------------------------------------------------------------
  // handler: the batch loop

  /** One file as multer hands it over, with the outside world's answers for it. */
  datatype UploadedFile = UploadedFile(
    originalname: string,
    receivedAt: nat,      // what Date.now() returned in multer's filename callback
    path: string,         // `file.path`, where multer stored the upload
    decoding: Decoding,   // what Jimp.read made of the stored file
    wr: WidthReduction,   // getRandomInt(40, 60) for this file
    hr: HeightReduction,  // getRandomInt(40, 70) for this file
    writeSucceeds: bool)  // whether writing the crop succeeded

  /** multer's disk storage put `f` where its `destination` and `filename` callbacks say. */
  predicate StoredByMulter(f: UploadedFile)
  {
    f.path == StoredPath(f.receivedAt, f.originalname)
  }

  /** What `cropImage(file.path)` does with `f`. */
  function Crop(f: UploadedFile): (c: CropOutcome)
  {
    CropImage(f.path, f.decoding, f.wr, f.hr, f.writeSucceeds)
  }

  /** The value `cropImage(file.path)` resolves to: the output path, or null. */
  function CropResult(f: UploadedFile): (result: Option<string>)
  {
    var c := Crop(f);
    if c.Saved? then Some(c.outputPath) else None
  }

  /** The results of `cropImage` for `files`, one per file, in order. */
  function Results(files: seq<UploadedFile>): (rs: seq<Option<string>>)
  {
    seq(|files|, i requires 0 <= i < |files| => CropResult(files[i]))
  }

  /** The non-null results, in order: what the loop pushes onto `croppedImages`. */
  function Kept(rs: seq<Option<string>>): (paths: seq<string>)
    ensures |paths| <= |rs|
  {
    if rs == [] then []
    else Kept(rs[..|rs| - 1]) + (if rs[|rs| - 1].Some? then [rs[|rs| - 1].value] else [])
  }

  /** `croppedImages` after the loop has run over `files`. */
  function CroppedImages(files: seq<UploadedFile>): (paths: seq<string>)
    ensures |paths| <= |files|
  {
    Kept(Results(files))
  }

  /** A failed file never stops the loop: the result for a batch is the results of its parts, concatenated. */
  lemma {:induction false} KeptAppend(a: seq<Option<string>>, b: seq<Option<string>>)
    ensures Kept(a + b) == Kept(a) + Kept(b)
    decreases |b|
  {
    if b == [] {
      assert a + b == a;
    } else {
      var init := b[..|b| - 1];
      assert (a + b)[..|a + b| - 1] == a + init;
      assert (a + b)[|a + b| - 1] == b[|b| - 1];
      KeptAppend(a, init);
    }
  }

  /** A path is kept exactly when some file's crop resolved to it. */
  lemma {:induction false} KeptMembers(rs: seq<Option<string>>, p: string)
    ensures p in Kept(rs) <==> Some(p) in rs
  {
    if rs != [] {
      var init := rs[..|rs| - 1];
      KeptMembers(init, p);
      assert rs == init + [rs[|rs| - 1]];
    }
  }

  /** Nothing is kept exactly when every result is null. */
  lemma {:induction false} KeptEmpty(rs: seq<Option<string>>)
    ensures Kept(rs) == [] <==> forall i :: 0 <= i < |rs| ==> rs[i].None?
  {
    if rs != [] {
      var init := rs[..|rs| - 1];
      KeptEmpty(init);
      assert forall i :: 0 <= i < |init| ==> init[i] == rs[i];
    }
  }

  /** When every result is a path, every path is kept, in order. */
  lemma {:induction false} KeptAll(rs: seq<Option<string>>)
    requires forall i :: 0 <= i < |rs| ==> rs[i].Some?
    ensures |Kept(rs)| == |rs|
    ensures forall i :: 0 <= i < |rs| ==> Kept(rs)[i] == rs[i].value
  {
    if rs != [] {
      var init := rs[..|rs| - 1];
      assert forall i :: 0 <= i < |init| ==> init[i] == rs[i];
      KeptAll(init);
    }
  }

  /** `croppedImages` is empty exactly when no file's crop was saved. */
  lemma NothingCropped(files: seq<UploadedFile>)
    ensures CroppedImages(files) == [] <==> forall i :: 0 <= i < |files| ==> !Crop(files[i]).Saved?
  {
    var rs := Results(files);
    KeptEmpty(rs);
    assert |rs| == |files|;
    forall i | 0 <= i < |files| ensures rs[i].None? <==> !Crop(files[i]).Saved? {
      assert rs[i] == CropResult(files[i]);
    }
  }

  /** When every image is large enough and decodes and writes cleanly, every file is cropped, in order. */
  lemma LargeImagesAllCropped(files: seq<UploadedFile>)
    requires forall i :: 0 <= i < |files| ==>
      && files[i].decoding.Decoded?
      && files[i].decoding.bitmap.width > MaxWidthReduction
      && files[i].decoding.bitmap.height > MaxHeightReduction
      && files[i].writeSucceeds
    ensures |CroppedImages(files)| == |files|
    ensures forall i :: 0 <= i < |files| ==> CroppedImages(files)[i] == Crop(files[i]).outputPath
  {
    var rs := Results(files);
    forall i | 0 <= i < |files| ensures rs[i].Some? && rs[i].value == Crop(files[i]).outputPath {
      CropAlwaysFits(files[i].decoding.bitmap);
    }
    KeptAll(rs);
  }

  // ---------------------------------------------------------------------
  // handler: the archive

  /** One file added to the zip: where it is read from and the name it gets inside. */
  datatype Entry = Entry(source: string, name: string)

  /** The entries `archive.file(imagePath, { name: path.basename(imagePath) })` adds, in order. */
  function ArchiveEntries(paths: seq<string>): (entries: seq<Entry>)
    ensures |entries| == |paths|
    ensures forall i :: 0 <= i < |paths| ==> entries[i].source == paths[i] && '/' !in entries[i].name
  {
    seq(|paths|, i requires 0 <= i < |paths| => Entry(paths[i], PosixPath.Basename(paths[i])))
  }

  /**
   * Every crop lands in "tmp/cropped" and its zip entry is named "cropped-"
   * followed by the stored name of the file it came from (timestamp included).
   */
  lemma CroppedImageNames(files: seq<UploadedFile>, p: string)
    requires forall i :: 0 <= i < |files| ==> StoredByMulter(files[i]) && '/' !in files[i].originalname
    requires p in CroppedImages(files)
    ensures exists i :: (0 <= i < |files| && Crop(files[i]).Saved? &&
      p == "tmp/cropped/" + CroppedPrefix + StoredFilename(files[i].receivedAt, files[i].originalname) &&
      PosixPath.Basename(p) == CroppedPrefix + StoredFilename(files[i].receivedAt, files[i].originalname))
  {
    var rs := Results(files);
    KeptMembers(rs, p);
    var i :| 0 <= i < |rs| && rs[i] == Some(p);
    var f := files[i];
    StoredPathShape(f.receivedAt, f.originalname);
    OutputPathShape(f.path);
  }

  // ---------------------------------------------------------------------
  // handler: the response

  /** What the multer middleware leaves: an error, or `req.files` (undefined when the body is not multipart). */
  datatype Middleware = MiddlewareFailed | Parsed(files: Option<seq<UploadedFile>>)

  /** How the zip stream ends: the output stream closes, or the archiver emits an error. */
  datatype ArchiveOutcome = OutputClosed | ArchiveFailed

  /** The JSON body of a reply. */
  datatype Body = Message(text: string) | Download(message: string, downloadLink: string)

  /**
   * A reply, or none: an archiver error is rethrown inside an event
   * listener, outside the handler's try, so no reply is ever sent.
   */
  datatype Reply = Reply(status: int, body: Body) | NoReply

  /** The files the loop runs over: `req.files`, or none when it is undefined. */
  function FilesOf(middleware: Middleware): (files: seq<UploadedFile>)
  {
    if middleware.Parsed? && middleware.files.Some? then middleware.files.value else []
  }

  /** The reply the handler sends for a request. */
  function Response(verb: string, middleware: Middleware, archive: ArchiveOutcome): (r: Reply)
    ensures r == Reply(405, Message(MethodNotAllowedMessage)) <==> verb != "POST"
    ensures r == Reply(500, Message(FailureMessage)) <==> verb == "POST" && middleware.MiddlewareFailed?
    ensures r == Reply(204, Message(NothingCroppedMessage))
        <==> verb == "POST" && middleware.Parsed? && CroppedImages(FilesOf(middleware)) == []
    ensures r == Reply(200, Download(SuccessMessage, DownloadLink))
        <==> verb == "POST" && middleware.Parsed? && CroppedImages(FilesOf(middleware)) != [] && archive.OutputClosed?
    ensures r.NoReply?
        <==> verb == "POST" && middleware.Parsed? && CroppedImages(FilesOf(middleware)) != [] && archive.ArchiveFailed?
  {
    if verb != "POST" then Reply(405, Message(MethodNotAllowedMessage))
    else if middleware.MiddlewareFailed? then Reply(500, Message(FailureMessage))
    else if CroppedImages(FilesOf(middleware)) == [] then Reply(204, Message(NothingCroppedMessage))
    else if archive == OutputClosed then Reply(200, Download(SuccessMessage, DownloadLink))
    else NoReply
  }

  /** A POST whose images are all large enough, readable and writable gets the download link. */
  lemma LargeBatchGetsLink(files: seq<UploadedFile>)
    requires files != []
    requires forall i :: 0 <= i < |files| ==>
      && files[i].decoding.Decoded?
      && files[i].decoding.bitmap.width > MaxWidthReduction
      && files[i].decoding.bitmap.height > MaxHeightReduction
      && files[i].writeSucceeds
    ensures Response("POST", Parsed(Some(files)), OutputClosed) == Reply(200, Download(SuccessMessage, DownloadLink))
  {
    LargeImagesAllCropped(files);
  }

  /** The `for` loop of the handler: crops each file in turn, keeping the paths of the saved crops. */
  method CropAll(files: seq<UploadedFile>) returns (croppedImages: seq<string>)
    ensures croppedImages == CroppedImages(files)
  {
    croppedImages := [];
    ghost var rs := Results(files);
    for i := 0 to |files|
      invariant croppedImages == Kept(rs[..i])
    {
      var croppedImagePath := CropResult(files[i]);
      if croppedImagePath.Some? {
        croppedImages := croppedImages + [croppedImagePath.value];
      }
      assert rs[..i + 1][..i] == rs[..i];
    }
    assert rs[..|files|] == rs;
  }

  /** The `forEach` that appends each crop to the zip under its basename. */
  method AddEntries(croppedImages: seq<string>) returns (entries: seq<Entry>)
    ensures entries == ArchiveEntries(croppedImages)
  {
    entries := [];
    for i := 0 to |croppedImages|
      invariant entries == ArchiveEntries(croppedImages[..i])
    {
      entries := entries + [Entry(croppedImages[i], PosixPath.Basename(croppedImages[i]))];
    }
    assert croppedImages[..|croppedImages|] == croppedImages;
  }

  /**
   * `handler(req, res)`: crops every uploaded file in turn, then adds the
   * saved crops to the zip. `entries` is what was added to the archive.
   */
  method Handle(verb: string, middleware: Middleware, archive: ArchiveOutcome) returns (reply: Reply, entries: seq<Entry>)
    ensures reply == Response(verb, middleware, archive)
    ensures entries == if verb == "POST" && middleware.Parsed? then ArchiveEntries(CroppedImages(FilesOf(middleware))) else []
  {
    entries := [];
    if verb != "POST" {
      return Reply(405, Message(MethodNotAllowedMessage)), entries;
    }
    if middleware.MiddlewareFailed? {
      return Reply(500, Message(FailureMessage)), entries;
    }
    var croppedImages := CropAll(FilesOf(middleware));
    if |croppedImages| > 0 {
      entries := AddEntries(croppedImages);
      reply := if archive.OutputClosed? then Reply(200, Download(SuccessMessage, DownloadLink)) else NoReply;
    } else {
      reply := Reply(204, Message(NothingCroppedMessage));
    }
  }
}
