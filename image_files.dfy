/** What both versions of the watermarking tool decide per walked file:
    whether it is an image to process (its extension), where its output goes
    (the same relative place under the output directory), and which encoder
    writes it (PNG for `.png`, JPEG at quality 90 otherwise). */
module ImageFiles {
  import opened Wrappers
  import opened Geometry
  import opened Paths

  /** The accepted extensions, compared after lower-casing. */
  const OkExtensions: seq<string> := [".jpeg", ".jpg", ".png"]

  /** The stream buffer size handed to both encoders. */
  const BufSize: nat := 256 * 1024

  const JpegQuality: nat := 90

  /** The lower-cased extension of a path's file name. */
  function LowerExt(file: Path): string
  {
    ToLower(Extname(BaseName(file)))
  }

  /** `okExtension.indexOf(ext) >= 0` for the lower-cased extension. */
  predicate IsImageFile(file: Path)
  {
    LowerExt(file) in OkExtensions
  }

  /** `path.join(output, path.relative(root, file))`, in the working
      directory `/cwd`. */
  function OutputPath(cwd: Path, output: Path, root: Path, file: Path): Path
  {
    Join(output, Relative(cwd, root, file))
  }

  datatype Encoder = Png(bufsize: nat) | Jpeg(bufsize: nat, quality: nat)

  /** `getStream`: the encoder is chosen by the output name's extension. */
  function GetStream(name: Path): Encoder
  {
    if LowerExt(name) == ".png" then Png(BufSize) else Jpeg(BufSize, JpegQuality)
  }

  /** One unit of work: an accepted source and its destination. */
  datatype FileTask = FileTask(source: Path, dest: Path)

  function TaskFor(cwd: Path, output: Path, root: Path, file: Path): FileTask
  {
    FileTask(file, OutputPath(cwd, output, root, file))
  }

  /** The files that satisfy `ok`, in order. */
  function Select(files: seq<Path>, ok: Path -> bool): seq<Path>
  {
    if |files| == 0 then []
    else
      var last := files[|files| - 1];
      Select(files[..|files| - 1], ok) + (if ok(last) then [last] else [])
  }

  /** The walked files that pass the extension filter, in walk order. */
  function Accepted(files: seq<Path>): seq<Path>
  {
    Select(files, IsImageFile)
  }

  lemma {:induction false} SelectMembers(files: seq<Path>, ok: Path -> bool)
    ensures |Select(files, ok)| <= |files|
    ensures forall x :: x in Select(files, ok) <==> x in files && ok(x)
  {
    if |files| > 0 {
      var last := files[|files| - 1];
      SelectMembers(files[..|files| - 1], ok);
      assert files == files[..|files| - 1] + [last];
    }
  }

  lemma {:induction false} SelectAll(files: seq<Path>, ok: Path -> bool)
    requires forall i :: 0 <= i < |files| ==> ok(files[i])
    ensures Select(files, ok) == files
  {
    if |files| > 0 {
      var init := files[..|files| - 1];
      SelectAll(init, ok);
      assert init + [files[|files| - 1]] == files;
    }
  }

  /** The filter keeps exactly the walked files that are images. */
  lemma AcceptedMembers(files: seq<Path>)
    ensures |Accepted(files)| <= |files|
    ensures forall x :: x in Accepted(files) <==> x in files && IsImageFile(x)
  {
    SelectMembers(files, IsImageFile);
  }

  /** A walk of images only is accepted whole. */
  lemma AcceptedOfImages(files: seq<Path>)
    requires forall i {:trigger IsImageFile(files[i])} :: 0 <= i < |files| ==> IsImageFile(files[i])
    ensures Accepted(files) == files
  {
    SelectAll(files, IsImageFile);
  }

  /** Why one file produced no output. */
  datatype Failure =
    | LoadFailed      // reading or decoding the source failed
    | NoWatermark     // the watermark could not be loaded, so its size is undefined
    | MkdirFailed     // creating the destination directory failed
    | EncodeFailed    // the encoder stream reported an error

  /** The geometry options as the user writes them (50 means half). */
  datatype Percents = Percents(width: real, height: real, hpos: real, vpos: real)

  /** The image written for one file: the source drawn unchanged at its own
      size, the watermark drawn over it with opacity `alpha` where `Where()`
      puts it, and the encoder chosen for the destination. Pixels are not
      modelled. */
  datatype Composite = Composite(size: Size, watermark: WatermarkSize, percents: Percents, alpha: real, encoder: Encoder)
  {
    /** The rectangle `(ox, oy, ow, oh)` the watermark is drawn into. */
    function Where(): Placement
    {
      PlaceByPercent(size, watermark, percents.width, percents.height, percents.hpos, percents.vpos)
    }
  }

  /** What happened to one accepted file. `Crashed` is a destination that
      cannot be opened or written: `saveImage` listens for errors only on the
      encoder stream, so the file stream's error is thrown out of `pipe`
      uncaught and the process ends there. */
  datatype Outcome =
    | Written(task: FileTask, image: Composite)
    | Failed(task: FileTask, failure: Failure)
    | Crashed(task: FileTask)

  /** The file system and the image codec as the tool sees them: whether a
      source decodes (and to what size), whether a directory can be made,
      whether the destination file can be opened and written, whether the
      encoder stream for it finishes without error, and the working directory
      `/cwd` against which relative paths are resolved. */
  datatype Env = Env(
    load: Path -> Option<Size>,
    mkdir: Path -> bool,
    write: Path -> bool,
    encode: Path -> bool,
    cwd: Path)

  // ---------------------------------------------------------------------------

  /** A file is an image exactly when its name has a last `.` that is not its
      first character and what follows from there, lower-cased, is `.jpeg`,
      `.jpg` or `.png`. */
  lemma IsImageFileIff(file: Path)
    ensures IsImageFile(file) <==> exists k :: ImageExtensionAt(BaseName(file), k)
  {
    var b := BaseName(file);
    if IsImageFile(file) {
      var d := LastDot(b);
      LastDotIsLast(b);
      assert Extname(b) != "";
      assert ImageExtensionAt(b, d);
    }
    if exists k :: ImageExtensionAt(b, k) {
      var k :| ImageExtensionAt(b, k);
      ExtnameAt(b, k);
    }
  }

  /** `b[k]` is the last `.` of `b`, not its first character, and the rest
      from there is an accepted extension. */
  predicate ImageExtensionAt(b: string, k: int)
  {
    && 0 < k < |b| && b[k] == '.' && (forall j :: k < j < |b| ==> b[j] != '.')
    && ToLower(b[k..]) in OkExtensions
  }

  lemma ExtnameAt(b: string, k: int)
    requires ImageExtensionAt(b, k)
    ensures Extname(b) == b[k..]
  {
    LastDotIsLast(b);
    assert LastDot(b) == k;
    ToLowerChars(b[k..]);
    assert |ToLower(b[k..])| >= 4;
  }

  /** The examples: `photo.PNG` is processed, `photo.gif` is skipped. */
  lemma FilterExamples()
    ensures IsImageFile(["album", "photo.PNG"])
    ensures !IsImageFile(["album", "photo.gif"])
  {
    var png, gif := "photo.PNG", "photo.gif";
    assert png[5] == '.' && png[6] == 'P' && png[7] == 'N' && png[8] == 'G';
    LastDotIsLast(png);
    assert LastDot(png) == 5;
    assert Extname("photo.PNG") == ".PNG";
    assert ToLower(".PNG") == ".png";
    assert gif[5] == '.' && gif[6] == 'g' && gif[7] == 'i' && gif[8] == 'f';
    LastDotIsLast(gif);
    assert LastDot(gif) == 5;
    assert Extname("photo.gif") == ".gif";
    assert ToLower(".gif") == ".gif";
  }

  /** The output tree mirrors the input tree: a file at `root/rest` is written
      to `output/rest`, at any depth, however `root` and `output` are spelled
      (relative or absolute, with `.`, `..` or empty segments). */
  lemma MirrorsTree(cwd: Path, output: Path, root: Path, rest: Path)
    requires Clean(rest)
    ensures OutputPath(cwd, output, root, root + rest) == Normalize(output) + rest
  {
    RelativeBelow(cwd, root, rest);
    NormalizeAppend(output, rest);
  }

  /** The example `root/sub/a.jpg` goes to `watermarked/sub/a.jpg`. */
  lemma MirrorExample(cwd: Path)
    ensures OutputPath(cwd, ["watermarked"], ["root"], ["root", "sub", "a.jpg"]) == ["watermarked", "sub", "a.jpg"]
  {
    MirrorsTree(cwd, ["watermarked"], ["root"], ["sub", "a.jpg"]);
    assert ["root"] + ["sub", "a.jpg"] == ["root", "sub", "a.jpg"];
    NormalizeClean(["watermarked"]);
  }

  /** A root typed as `photos/` sends `photos/a.jpg` to `/srv/out/a.jpg` for
      the output `/srv/out`: the root's trailing `/` does not matter and the
      output stays absolute. */
  lemma SpellingExample(cwd: Path)
    ensures OutputPath(cwd, ["", "srv", "out"], ["photos", ""], ["photos", "a.jpg"]) == ["", "srv", "out", "a.jpg"]
  {
    TrailingSlash(cwd, ["photos"]);
    assert ["photos"] + [""] == ["photos", ""];
    RelativeBelow(cwd, ["photos"], ["a.jpg"]);
    assert ["photos"] + ["a.jpg"] == ["photos", "a.jpg"];
    NormalizeAppend(["", "srv", "out"], ["a.jpg"]);
    NormalizeOntoClean([], ["srv", "out"], true);
    assert ["", "srv", "out"][1..] == ["srv", "out"];
  }

  /** The destination keeps the source's file name, so the output format is
      the one the source's own extension selects: PNG exactly for `.png` in
      any case, JPEG at quality 90 for `.jpg` and `.jpeg`. */
  lemma FormatFollowsSource(cwd: Path, output: Path, root: Path, rest: Path)
    requires Clean(rest) && |rest| > 0
    requires IsImageFile(root + rest)
    ensures var enc := GetStream(OutputPath(cwd, output, root, root + rest));
      && enc.bufsize == BufSize
      && (enc.Png? <==> LowerExt(root + rest) == ".png")
      && (enc.Jpeg? <==> LowerExt(root + rest) in [".jpeg", ".jpg"])
      && (enc.Jpeg? ==> enc.quality == 90)
  {
    MirrorsTree(cwd, output, root, rest);
    assert BaseName(Normalize(output) + rest) == BaseName(root + rest);
  }
}
