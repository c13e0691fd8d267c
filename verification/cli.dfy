/** The command-line batch (`run_cli_mode`, src/main.rs:571-735): discover the
    files, compress each one with the options taken from the arguments, write it
    under its output name, and summarise the batch with saturating totals. File
    system results are parameters. */
module Cli {
  import opened Basics
  import opened Codecs
  import opened Dispatch
  import opened Paths
  import opened Discovery

  /** The arguments the batch uses (`Args`, src/main.rs:31-75). */
  datatype CliArgs = CliArgs(
    outputDir: Option<Path>,
    overwrite: bool,
    pngLossy: bool,
    pngQuality: string,
    oxipng: bool,
    toWebp: bool,
    toAvif: bool)

  /** The options every file is compressed with: the command line offers only the
      WebP and AVIF conversions. */
  function CliOptions(args: CliArgs): (opts: CompressionOptions)
    ensures !opts.toJpeg && !opts.toPng && !opts.toTiff && !opts.toBmp && !opts.toIco
    ensures RequestedTargets(opts) == [] <==> !args.toWebp && !args.toAvif
  {
    var opts := CompressionOptions(args.pngLossy, args.pngQuality, args.oxipng, args.toWebp, args.toAvif,
                                   false, false, false, false, false);
    RequestedTargetsHead(opts);
    opts
  }

  /** The extension the worker dispatches on: the path's extension lower-cased,
      or empty when there is none. */
  function SourceExt(src: Path): string {
    if FileName(src).Some? then Lower(Extension(FileName(src).value).GetOr("")) else ""
  }

  /** A dispatched extension that is not empty comes from a real extension. */
  lemma SourceExtHasExtension(src: Path)
    requires SourceExt(src) != ""
    ensures FileName(src).Some? && Extension(FileName(src).value).Some?
    ensures SourceExt(src) == Lower(Extension(FileName(src).value).value)
  {
  }

  // ---------------------------------------------------------------------------
  // The output name.

  /** The target extension as the worker picks it: WebP, then AVIF. */
  function TargetExtAsWritten(args: CliArgs): Option<string> {
    if args.toWebp then Some("webp") else if args.toAvif then Some("avif") else None
  }

  /** The written file's path as the worker computes it: `build_output_path`
      with the target extension, then, without a target, anything but PNG or
      JPEG gets `.png` because the dispatcher re-encodes it as PNG. */
  function CliOutputPathAsWritten(src: Path, args: CliArgs): Path {
    var ext := SourceExt(src);
    var target := TargetExtAsWritten(args);
    var out := BuildOutputPath(src, args.outputDir, args.overwrite, target);
    if target.None? && ext !in {"png", "jpg", "jpeg"} then WithExtension(out, "png") else out
  }

  /** A HEIC source is always converted to JPEG, but the name says PNG (or the
      requested format). */
  lemma CliOutputPathAsWrittenHeic(src: Path, args: CliArgs)
    requires IsHeic(SourceExt(src))
    ensures ContentType(ChooseRoute(SourceExt(src), CliOptions(args))) == "image/jpeg"
    ensures var name := FileName(CliOutputPathAsWritten(src, args)).value;
      Extension(name) == Some(if args.toWebp then "webp" else if args.toAvif then "avif" else "png")
  {
    var out := BuildOutputPath(src, args.outputDir, args.overwrite, TargetExtAsWritten(args));
    PlainLiterals();
    if args.toWebp {
      BuildOutputPathExtension(src, args.outputDir, args.overwrite, "webp");
    } else if args.toAvif {
      BuildOutputPathExtension(src, args.outputDir, args.overwrite, "avif");
    } else {
      assert SourceExt(src) !in {"png", "jpg", "jpeg"};
      ExtensionOfSetExtension(FileName(out).value, "png");
    }
  }

  /** The concrete case: `x.heic` without flags is written as `c_x.png` holding JPEG. */
  lemma CliOutputPathAsWrittenHeicWitness(args: CliArgs)
    requires !args.toWebp && !args.toAvif && !args.overwrite && args.outputDir.None?
    ensures SourceExt(["x.heic"]) == "heic"
    ensures CliOutputPathAsWritten(["x.heic"], args) == ["c_x.png"]
    ensures ContentType(ChooseRoute(SourceExt(["x.heic"]), CliOptions(args))) == "image/jpeg"
  {
    WitnessSourceExt();
    WitnessPrefixed();
    WitnessRenamed();
    assert BuildOutputPath(["x.heic"], args.outputDir, args.overwrite, None) == ["c_x.heic"];
    assert WithExtension(["c_x.heic"], "png") == ["c_x.png"];
    CliOutputPathAsWrittenHeic(["x.heic"], args);
  }

  /** `x.heic` has the extension `heic`. */
  lemma WitnessSourceExt()
    ensures Extension("x.heic") == Some("heic")
    ensures SourceExt(["x.heic"]) == "heic"
  {
    assert FileStem("x") == "x" by { assert LastIndex("x", '.') == None; }
    HeicNameLiterals();
    ExtensionOfSetExtension("x", "heic");
    assert SetExtension("x", "heic") == "x.heic";
    LowerHeic();
  }

  /** Without an output directory `x.heic` becomes `c_x.heic` beside itself. */
  lemma WitnessPrefixed()
    ensures PrefixedName(["x.heic"]) == "c_x.heic"
    ensures WithFileName(["x.heic"], "c_x.heic") == ["c_x.heic"]
  {
    HeicNameLiterals();
  }

  /** `c_x.heic` with its extension set to `png` is `c_x.png`. */
  lemma WitnessRenamed()
    ensures SetExtension("c_x.heic", "png") == "c_x.png"
    ensures WithExtension(["c_x.heic"], "png") == ["c_x.png"]
  {
    WitnessStems();
    HeicNameLiterals();
    assert SetExtension("c_x.heic", "png") == "c_x" + ".png";
  }

  /** The stems of `x.heic` and `c_x.heic`. */
  lemma WitnessStems()
    ensures FileStem("x.heic") == "x"
    ensures FileStem("c_x.heic") == "c_x"
  {
    WitnessSourceExt();
    HeicNameLiterals();
    StemAndExtension("x.heic");
    assert "x.heic" == FileStem("x.heic") + "." + "heic";
    assert |FileStem("x.heic")| == 1;
    ExtensionAfterPrefix("c_", "x.heic");
  }

  lemma HeicNameLiterals()
    ensures SetExtension("x", "heic") == FileStem("x") + ".heic"
    ensures "x" + ".heic" == "x.heic" && "c_" + "x.heic" == "c_x.heic"
    ensures "c_" + "x" == "c_x" && "c_x" + ".png" == "c_x.png"
  {
  }

  lemma LowerHeic()
    ensures Lower("heic") == "heic"
  {
  }

  /** The extensions the worker writes are lower case and without a dot. */
  lemma PlainLiterals()
    ensures Lower("webp") == "webp" && Lower("avif") == "avif"
    ensures Lower("png") == "png" && Lower("jpg") == "jpg"
    ensures '.' !in "webp" && '.' !in "avif" && '.' !in "png" && '.' !in "jpg"
  {
  }

  /** The target extension with HEIC first: a HEIC source is written as `.jpg`,
      which is what the dispatcher produces for it. */
  function CliTargetExt(ext: string, args: CliArgs): Option<string> {
    if IsHeic(ext) then Some("jpg")
    else if args.toWebp then Some("webp")
    else if args.toAvif then Some("avif")
    else None
  }

  /** The extension the written file ends in announces the content type the
      dispatcher returns for the source. */
  predicate Announces(name: string, src: Path, args: CliArgs) {
    Extension(name).Some? &&
    ExtMime(Lower(Extension(name).value)) == Some(ContentType(ChooseRoute(SourceExt(src), CliOptions(args))))
  }

  /** The written file's path: its extension always announces the content type
      the dispatcher returns for the source. */
  function CliOutputPath(src: Path, args: CliArgs): (r: Path)
    ensures FileName(r).Some? && Announces(FileName(r).value, src, args)
    ensures Parent(r) == if !args.overwrite && args.outputDir.Some? then args.outputDir.value else Parent(src)
  {
    var ext := SourceExt(src);
    var target := CliTargetExt(ext, args);
    var out := BuildOutputPath(src, args.outputDir, args.overwrite, target);
    if target.Some? then
      TargetAnnounced(src, args);
      out
    else if ext !in {"png", "jpg", "jpeg"} then
      FallbackAnnounced(src, args);
      WithExtension(out, "png")
    else
      KeptAnnounced(src, args);
      out
  }

  /** The corrected target extension (HEIC first, as `jpg`) names what the
      dispatcher produces. */
  lemma TargetMime(ext: string, args: CliArgs)
    requires CliTargetExt(ext, args).Some?
    ensures ExtMime(CliTargetExt(ext, args).value) == Some(ContentType(ChooseRoute(ext, CliOptions(args))))
  {
    RequestedTargetsHead(CliOptions(args));
  }

  /** The worker's own target extension names what the dispatcher produces for
      every source but HEIC. */
  lemma TargetMimeAsWritten(ext: string, args: CliArgs)
    requires !IsHeic(ext) && TargetExtAsWritten(args).Some?
    ensures ExtMime(TargetExtAsWritten(args).value) == Some(ContentType(ChooseRoute(ext, CliOptions(args))))
  {
    assert CliTargetExt(ext, args) == TargetExtAsWritten(args);
    TargetMime(ext, args);
  }

  lemma TargetAnnounced(src: Path, args: CliArgs)
    requires CliTargetExt(SourceExt(src), args).Some?
    ensures var out := BuildOutputPath(src, args.outputDir, args.overwrite, CliTargetExt(SourceExt(src), args));
      Announces(FileName(out).value, src, args)
  {
    var e := CliTargetExt(SourceExt(src), args).value;
    PlainLiterals();
    BuildOutputPathExtension(src, args.outputDir, args.overwrite, e);
    TargetMime(SourceExt(src), args);
  }

  lemma FallbackAnnounced(src: Path, args: CliArgs)
    requires CliTargetExt(SourceExt(src), args).None? && SourceExt(src) !in {"png", "jpg", "jpeg"}
    ensures var out := BuildOutputPath(src, args.outputDir, args.overwrite, None);
      Announces(FileName(WithExtension(out, "png")).value, src, args)
  {
    FallbackNamedPng(src, args);
    FallbackServedPng(src, args);
    PlainLiterals();
  }

  /** Without a target the fallback name ends in `.png`. */
  lemma FallbackNamedPng(src: Path, args: CliArgs)
    ensures var out := BuildOutputPath(src, args.outputDir, args.overwrite, None);
      Extension(FileName(WithExtension(out, "png")).value) == Some("png")
  {
    var out := BuildOutputPath(src, args.outputDir, args.overwrite, None);
    assert FileName(WithExtension(out, "png")).value == SetExtension(FileName(out).value, "png");
    PlainLiterals();
    ExtensionOfSetExtension(FileName(out).value, "png");
  }

  /** Without a target, anything but PNG or JPEG is served as PNG. */
  lemma FallbackServedPng(src: Path, args: CliArgs)
    requires CliTargetExt(SourceExt(src), args).None? && SourceExt(src) !in {"png", "jpg", "jpeg"}
    ensures ContentType(ChooseRoute(SourceExt(src), CliOptions(args))) == "image/png"
  {
    assert RequestedTargets(CliOptions(args)) == [];
    ExtensionFallback(SourceExt(src), CliOptions(args));
  }

  lemma KeptAnnounced(src: Path, args: CliArgs)
    requires CliTargetExt(SourceExt(src), args).None? && SourceExt(src) in {"png", "jpg", "jpeg"}
    ensures var out := BuildOutputPath(src, args.outputDir, args.overwrite, None);
      Announces(FileName(out).value, src, args)
  {
    SourceExtHasExtension(src);
    ExtensionAfterPrefix("c_", FileName(src).value);
    KeptExtensionMime(SourceExt(src), CliOptions(args));
  }

  /** The worker's name and the corrected one differ only for HEIC sources: for
      every other source the written file's extension already announces the
      content type the dispatcher returns. */
  lemma CliOutputPathAgreesExceptHeic(src: Path, args: CliArgs)
    requires !IsHeic(SourceExt(src))
    ensures CliOutputPathAsWritten(src, args) == CliOutputPath(src, args)
    ensures FileName(CliOutputPathAsWritten(src, args)).Some?
    ensures Announces(FileName(CliOutputPathAsWritten(src, args)).value, src, args)
  {
    assert CliTargetExt(SourceExt(src), args) == TargetExtAsWritten(args);
  }

  /** A path is its parent followed by its file name. */
  lemma PathFromParts(p: Path)
    requires FileName(p).Some?
    ensures p == Parent(p) + [FileName(p).value]
  {
  }

  /** The naming rule is not one-to-one. With a requested conversion, two sources
      in the same directory whose names share a stem are written to the same
      file, by the worker and by the corrected rule alike. */
  lemma TargetOutputCollision(a: Path, b: Path, args: CliArgs)
    requires TargetExtAsWritten(args).Some?
    requires Parent(a) == Parent(b) && FileName(a).Some? && FileName(b).Some?
    requires Extension(FileName(a).value).Some? && Extension(FileName(b).value).Some?
    requires FileStem(FileName(a).value) == FileStem(FileName(b).value)
    ensures CliOutputPathAsWritten(a, args) == CliOutputPathAsWritten(b, args)
    ensures !IsHeic(SourceExt(a)) && !IsHeic(SourceExt(b)) ==> CliOutputPath(a, args) == CliOutputPath(b, args)
  {
    var e := TargetExtAsWritten(args).value;
    PlainLiterals();
    var outA := BuildOutputPath(a, args.outputDir, args.overwrite, Some(e));
    var outB := BuildOutputPath(b, args.outputDir, args.overwrite, Some(e));
    BuildOutputPathExtension(a, args.outputDir, args.overwrite, e);
    BuildOutputPathExtension(b, args.outputDir, args.overwrite, e);
    StemAndExtension(FileName(outA).value);
    StemAndExtension(FileName(outB).value);
    PathFromParts(outA);
    PathFromParts(outB);
    assert outA == outB;
    if !IsHeic(SourceExt(a)) && !IsHeic(SourceExt(b)) {
      CliOutputPathAgreesExceptHeic(a, args);
      CliOutputPathAgreesExceptHeic(b, args);
    }
  }

  /** Without a requested conversion, a source the dispatcher re-encodes as PNG
      is renamed to `.png`, and so lands on the output of a PNG source with the
      same stem in the same directory. */
  lemma FallbackOutputCollision(a: Path, b: Path, args: CliArgs)
    requires TargetExtAsWritten(args).None?
    requires Parent(a) == Parent(b) && FileName(a).Some? && FileName(b).Some?
    requires Extension(FileName(a).value).Some? && SourceExt(a) !in {"png", "jpg", "jpeg"}
    requires Extension(FileName(b).value) == Some("png")
    requires FileStem(FileName(a).value) == FileStem(FileName(b).value)
    ensures CliOutputPathAsWritten(a, args) == CliOutputPathAsWritten(b, args)
    ensures !IsHeic(SourceExt(a)) ==> CliOutputPath(a, args) == CliOutputPath(b, args)
  {
    var outA := BuildOutputPath(a, args.outputDir, args.overwrite, None);
    var outB := BuildOutputPath(b, args.outputDir, args.overwrite, None);
    FallbackNamesMeet(FileName(a).value, FileName(b).value);
    PathFromParts(outA);
    PathFromParts(outB);
    PlainLiterals();
    assert SourceExt(b) == "png";
    assert CliOutputPathAsWritten(a, args) == Parent(outA) + [SetExtension(FileName(outA).value, "png")];
    if !IsHeic(SourceExt(a)) {
      CliOutputPathAgreesExceptHeic(a, args);
      CliOutputPathAgreesExceptHeic(b, args);
    }
  }

  /** The concrete case with default arguments: `x.bmp` and `x.png` are both
      written to `c_x.png`. */
  lemma OutputCollisionExample(args: CliArgs)
    requires !args.toWebp && !args.toAvif && !args.overwrite && args.outputDir.None?
    ensures CliOutputPathAsWritten(["x.bmp"], args) == ["c_x.png"]
    ensures CliOutputPathAsWritten(["x.png"], args) == ["c_x.png"]
    ensures CliOutputPath(["x.bmp"], args) == CliOutputPath(["x.png"], args)
  {
    CollisionNames();
    LowerBmp();
    PlainLiterals();
    assert SourceExt(["x.bmp"]) == "bmp";
    assert SourceExt(["x.png"]) == "png";
    assert BuildOutputPath(["x.png"], args.outputDir, args.overwrite, None) == ["c_x.png"];
    FallbackOutputCollision(["x.bmp"], ["x.png"], args);
  }

  /** `x.bmp` and `x.png` share the stem `x`. */
  lemma CollisionNames()
    ensures Extension("x.bmp") == Some("bmp") && Extension("x.png") == Some("png")
    ensures FileStem("x.bmp") == "x" && FileStem("x.png") == "x"
    ensures "c_" + "x.png" == "c_x.png"
  {
    BmpName();
    PngName();
  }

  lemma BmpName()
    ensures Extension("x.bmp") == Some("bmp") && FileStem("x.bmp") == "x"
  {
    NameWithExtension("bmp");
    assert "x" + "." + "bmp" == "x.bmp";
  }

  lemma PngName()
    ensures Extension("x.png") == Some("png") && FileStem("x.png") == "x"
  {
    NameWithExtension("png");
    assert "x" + "." + "png" == "x.png";
  }

  lemma LowerBmp()
    ensures Lower("bmp") == "bmp"
  {
  }

  /** `x.` followed by an extension has that extension and the stem `x`. */
  lemma NameWithExtension(ext: string)
    requires ext != [] && '.' !in ext
    ensures Extension("x" + "." + ext) == Some(ext) && FileStem("x" + "." + ext) == "x"
  {
    assert FileStem("x") == "x" by { assert LastIndex("x", '.') == None; }
    ExtensionOfSetExtension("x", ext);
    assert SetExtension("x", ext) == "x" + "." + ext;
  }

  /** `c_` and a name, with its extension set to `png`, is `c_` and the name of
      the PNG file with the same stem. */
  lemma FallbackNamesMeet(nameA: string, nameB: string)
    requires Extension(nameA).Some? && Extension(nameB) == Some("png")
    requires FileStem(nameA) == FileStem(nameB)
    ensures SetExtension("c_" + nameA, "png") == "c_" + nameB
  {
    var stem := FileStem(nameA);
    ExtensionAfterPrefix("c_", nameA);
    StemAndExtension(nameB);
    assert SetExtension("c_" + nameA, "png") == ("c_" + stem) + ("." + "png");
    assert nameB == stem + "." + "png";
  }

  // ---------------------------------------------------------------------------
  // One file.

  /** What the file system answers for one file: its size before, its contents
      (or the read error), the write error, the two rename errors when
      overwriting, and the size of the final file. A missing size reads as 0. */
  datatype FileIo = FileIo(
    sizeBefore: Option<uint64>,
    contents: Result<seq<uint8>, string>,
    writeError: Option<string>,
    backupError: Option<string>,
    renameError: Option<string>,
    sizeAfter: Option<uint64>)

  /** The record the worker returns for a file. */
  datatype FileRecord = FileRecord(path: Path, before: uint64, after: uint64, ok: bool, message: string)

  /** What the worker leaves behind: its record, the file it wrote with the bytes,
      and where the compressed file finally lives. */
  datatype FileOutcome = FileOutcome(record: FileRecord, written: Option<(Path, seq<uint8>)>, finalPath: Option<Path>)

  /** The worker for one file (the closure in src/main.rs:600-683). With
      `overwrite` the compressed file replaces the source: the source is renamed
      to its backup name, the output renamed onto the source, and the backup
      removed; a failed second rename restores the source. The output goes under
      the name the worker computes, `CliOutputPathAsWritten`. */
  function ProcessFile(c: Codecs, src: Path, args: CliArgs, io: FileIo): (r: FileOutcome)
    ensures r.record.path == src && r.record.before == io.sizeBefore.GetOr(0)
    ensures r.record.ok <==>
      io.contents.Ok? && CompressImage(c, io.contents.value, SourceExt(src), CliOptions(args)).Ok? &&
      io.writeError.None? && (args.overwrite ==> io.backupError.None? && io.renameError.None?)
    ensures r.record.ok <==> r.record.message == ""
    ensures !r.record.ok ==> r.record.after == 0 && r.finalPath.None?
    ensures r.record.ok ==> (
      r.record.after == io.sizeAfter.GetOr(0) &&
      r.written == Some((CliOutputPathAsWritten(src, args),
                         CompressImage(c, io.contents.value, SourceExt(src), CliOptions(args)).value.bytes)) &&
      r.finalPath == Some(if args.overwrite then src else CliOutputPathAsWritten(src, args)))
  {
    var before := io.sizeBefore.GetOr(0);
    match io.contents
    case Err(e) => FileOutcome(FileRecord(src, before, 0, false, "read-failed: " + e), None, None)
    case Ok(input) =>
      var out := CliOutputPathAsWritten(src, args);
      match CompressImage(c, input, SourceExt(src), CliOptions(args))
      case Err(e) => FileOutcome(FileRecord(src, before, 0, false, "compress-failed: " + e), None, None)
      case Ok(compressed) =>
        var written := Some((out, compressed.bytes));
        if io.writeError.Some? then
          FileOutcome(FileRecord(src, before, 0, false, "write-failed: " + io.writeError.value), None, None)
        else if args.overwrite && io.backupError.Some? then
          FileOutcome(FileRecord(src, before, 0, false, "backup-failed: " + io.backupError.value), written, None)
        else if args.overwrite && io.renameError.Some? then
          FileOutcome(FileRecord(src, before, 0, false, "overwrite-failed: " + io.renameError.value), written, None)
        else
          var final := if args.overwrite then src else out;
          FileOutcome(FileRecord(src, before, io.sizeAfter.GetOr(0), true, ""), written, Some(final))
  }

  /** `par_iter().map(...).collect()`: one record per file, in the files' order. */
  function ProcessAll(c: Codecs, files: seq<Path>, args: CliArgs, io: Path -> FileIo): (records: seq<FileRecord>)
    ensures |records| == |files|
    ensures forall i :: 0 <= i < |files| ==> records[i] == ProcessFile(c, files[i], args, io(files[i])).record
    ensures forall i :: 0 <= i < |files| ==> records[i].path == files[i]
  {
    seq(|files|, i requires 0 <= i < |files| => ProcessFile(c, files[i], args, io(files[i])).record)
  }

  // ---------------------------------------------------------------------------
  // The summary.

  /** `saturating_add`: never below either operand, exact when the sum fits, and
      stuck at the largest `u64` otherwise. */
  function SatAdd(a: uint64, b: uint64): (r: uint64)
    ensures a <= r && b <= r && r <= a + b
    ensures a + b <= U64_MAX ==> r == a + b
    ensures a + b > U64_MAX ==> r == U64_MAX
  {
    if a + b > U64_MAX then U64_MAX else a + b
  }

  /** `saturating_sub`: the difference, or 0 when it would be negative. */
  function SatSub(a: uint64, b: uint64): (r: uint64)
    ensures r <= a && (b <= a ==> r + b == a) && (a < b ==> r == 0)
  {
    if a < b then 0 else a - b
  }

  function Min(a: int, b: int): int {
    if a < b then a else b
  }

  function SumBefore(records: seq<FileRecord>): nat {
    if records == [] then 0 else SumBefore(records[..|records| - 1]) + records[|records| - 1].before
  }

  function SumAfter(records: seq<FileRecord>): nat {
    if records == [] then 0 else SumAfter(records[..|records| - 1]) + records[|records| - 1].after
  }

  function CountOk(records: seq<FileRecord>): (n: nat)
    ensures n <= |records|
  {
    if records == [] then 0 else CountOk(records[..|records| - 1]) + (if records[|records| - 1].ok then 1 else 0)
  }

  /** Adding to a total that saturates is the saturated exact sum. */
  lemma SatAddMin(total: nat, x: uint64)
    ensures SatAdd(Min(total, U64_MAX), x) == Min(total + x, U64_MAX)
  {
  }

  /** A line of the report. Sizes are shown rounded and percentages as floating
      point; only the exact integers behind them are modelled. */
  datatype SummaryLine =
    | FailedLine(path: Path, message: string)
    | CompressedLine(name: string, before: uint64, after: uint64, saved: uint64)
    | TotalLine(processed: nat, totalSaved: uint64)
    | NothingCompressed

  function RecordLine(rec: FileRecord): SummaryLine {
    if !rec.ok then FailedLine(rec.path, rec.message)
    else CompressedLine(FileName(rec.path).GetOr("file"), rec.before, rec.after, SatSub(rec.before, rec.after))
  }

  /** The summary loop: one line per record in order, then the total line when at
      least one file was compressed. Both totals add every record, failed ones too
      (a failed record contributes its size before and an after of 0), saturating
      at the largest `u64`; `processed` counts the successes. */
  method Summarize(records: seq<FileRecord>)
    returns (totalBefore: uint64, totalAfter: uint64, processed: nat, lines: seq<SummaryLine>)
    ensures totalBefore == Min(SumBefore(records), U64_MAX)
    ensures totalAfter == Min(SumAfter(records), U64_MAX)
    ensures processed == CountOk(records)
    ensures |lines| == |records| + 1
    ensures forall i :: 0 <= i < |records| ==> lines[i] == RecordLine(records[i])
    ensures lines[|records|] ==
      if processed > 0 then TotalLine(processed, SatSub(totalBefore, totalAfter)) else NothingCompressed
  {
    totalBefore, totalAfter, processed := 0, 0, 0;
    lines := [];
    var i := 0;
    while i < |records|
      invariant 0 <= i <= |records|
      invariant totalBefore == Min(SumBefore(records[..i]), U64_MAX)
      invariant totalAfter == Min(SumAfter(records[..i]), U64_MAX)
      invariant processed == CountOk(records[..i])
      invariant |lines| == i
      invariant forall k :: 0 <= k < i ==> lines[k] == RecordLine(records[k])
    {
      var rec := records[i];
      lines := lines + [RecordLine(rec)];
      assert records[..i + 1][..i] == records[..i];
      SatAddMin(SumBefore(records[..i]), rec.before);
      SatAddMin(SumAfter(records[..i]), rec.after);
      totalBefore := SatAdd(totalBefore, rec.before);
      totalAfter := SatAdd(totalAfter, rec.after);
      if rec.ok {
        processed := processed + 1;
      }
      i := i + 1;
    }
    assert records[..i] == records;
    if processed > 0 {
      lines := lines + [TotalLine(processed, SatSub(totalBefore, totalAfter))];
    } else {
      lines := lines + [NothingCompressed];
    }
  }

  /** The total saved never exceeds the total before, and is exact below the
      saturation bound. */
  lemma TotalSavedBounded(records: seq<FileRecord>)
    requires SumBefore(records) <= U64_MAX
    ensures var before := Min(SumBefore(records), U64_MAX);
      var after := Min(SumAfter(records), U64_MAX);
      SatSub(before, after) <= SumBefore(records) &&
      (SumAfter(records) <= SumBefore(records) ==> SatSub(before, after) == SumBefore(records) - SumAfter(records))
  {
  }

  /** Failed records still count towards both totals: a failed file adds its
      size before to the total before and nothing to the total after. */
  lemma FailedRecordsInTotals(records: seq<FileRecord>, rec: FileRecord)
    requires !rec.ok && rec.after == 0
    ensures SumBefore(records + [rec]) == SumBefore(records) + rec.before
    ensures SumAfter(records + [rec]) == SumAfter(records)
    ensures CountOk(records + [rec]) == CountOk(records)
  {
    assert (records + [rec])[..|records|] == records;
  }

  // ---------------------------------------------------------------------------
  // The batch.

  /** What the batch prints. */
  datatype BatchReport =
    | NoSupportedFiles
    | Report(files: seq<Path>, records: seq<FileRecord>,
             totalBefore: uint64, totalAfter: uint64, processed: nat, lines: seq<SummaryLine>)

  /** The batch after argument checks: discover, process every file, summarise.
      `io` answers the file system for each file. Nothing is processed when no
      supported file is found. */
  method RunBatch(c: Codecs, input: Path, inputIsFile: bool, walk: seq<WalkItem>, args: CliArgs,
                  io: Path -> FileIo) returns (report: BatchReport)
    ensures inputIsFile ==> (report.NoSupportedFiles? <==> !IsSupported(input))
    ensures !inputIsFile ==>
      (report.NoSupportedFiles? <==> forall p :: Entry(p, true) in walk ==> !IsSupported(p))
    ensures report.Report? ==> (
      |report.files| > 0 &&
      (forall p :: p in report.files ==> IsSupported(p)) &&
      report.files == (if inputIsFile then [input] else Dedup(Sort(SupportedFiles(walk)))) &&
      report.records == ProcessAll(c, report.files, args, io) &&
      report.processed == CountOk(report.records) &&
      report.totalBefore == Min(SumBefore(report.records), U64_MAX) &&
      report.totalAfter == Min(SumAfter(report.records), U64_MAX) &&
      |report.lines| == |report.records| + 1 &&
      (forall i :: 0 <= i < |report.records| ==> report.lines[i] == RecordLine(report.records[i])) &&
      report.lines[|report.records|] ==
        if report.processed > 0 then TotalLine(report.processed, SatSub(report.totalBefore, report.totalAfter))
        else NothingCompressed)
  {
    var files := DiscoverFiles(input, inputIsFile, walk);
    if |files| == 0 {
      return NoSupportedFiles;
    }
    assert files[0] in files;
    var records := ProcessAll(c, files, args, io);
    var totalBefore, totalAfter, processed, lines := Summarize(records);
    report := Report(files, records, totalBefore, totalAfter, processed, lines);
  }
}
