# A verified model of the rust-tinypng-clone compressor core

`rust-tinypng-clone` is a TinyPNG-like image compressor: a command-line batch tool
and an HTTP endpoint that re-encode PNG, JPEG, BMP, TIFF, WebP and HEIC images.
Both front ends feed one dispatcher (`compress_image_inproc`) that picks exactly one
encoder for the input. The priority is fixed:

1. a HEIC/HEIF extension;
2. then the first requested conversion (WebP, AVIF, JPEG, PNG, TIFF, BMP, ICO);
3. then the extension itself.

This project models that dispatcher and the logic around it in Dafny.

The image libraries are opaque: imagequant, mozjpeg, webp, ravif, oxipng, and the
`image` crate's decoders and encoders. They are function-valued fields of a
`Codecs` value that every operation takes as a parameter. What the model captures
is what `src/main.rs` decides around them:

- which encoder runs, with which settings and thresholds;
- which content type is announced;
- how the quality range is parsed;
- how palette indices are expanded to RGBA;
- what the output file is called, on disk and in the download header;
- which files a batch picks up, in which order;
- how the multipart form is folded into options;
- how the batch summary adds up its sizes with saturating 64-bit arithmetic.

The model is organised as follows:

- `basics.dfy` (`Basics`): Option and Result, `u8`/`u64` ranges, ASCII lower-casing, the last index of a character.
- `quality.dfy` (`Quality`): `str::split`, `u8` parsing, `parse_quality_range` and the shared lossy quality.
- `codecs.dfy` (`Codecs`): the library interface, the quantizer and mozjpeg presets, palette expansion and the per-format adapters.
- `dispatch.dfy` (`Dispatch`): `CompressionOptions` and the dispatcher.
  - The dispatcher is written as the source's if-chain (`CompressImage`).
  - It is also written as a declarative priority description (`ChooseRoute`, `RunRoute`, `ContentType`).
  - A lemma proves the two equal.
- `paths.dfy` (`Paths`): the part of Rust's `Path` that is used, and `build_output_path`.
- `discovery.dfy` (`Discovery`): `discover_files` with Rust's path order, `sort` and `dedup`.
- `api.dfy` (`Api`): the `compress_api` handler. It covers the form fold, the download name and the response.
- `cli.dfy` (`Cli`): `run_cli_mode`. It covers the options, the output name, the per-file worker with its file-system answers as parameters, the summary loop and the whole batch.

## Model

| member | source | states |
|---|---|---|
| Quality.Split | src/main.rs:102 | `split('-')` always yields at least one field |
| Quality.SplitWithoutSeparator | src/main.rs:102 | text without `-` is a single field |
| Quality.SplitAtFirstSeparator | src/main.rs:102 | the first `-` ends the first field and the rest splits on its own |
| Quality.ParseU8 | src/main.rs:103-104 | a successful `parse::<u8>` starts with a digit or `+` |
| Quality.ParseU8AcceptsOnlyDigits | src/main.rs:103-104 | a successful parse is a non-empty digit string, possibly behind one `+`, and returns its decimal value |
| Quality.ParseU8OfDigits | src/main.rs:103-104 | every digit string up to 255 parses to its decimal value, with or without `+` |
| Quality.ParseQualityRange | src/main.rs:101-106 | `parse_quality_range` itself; its behaviour is stated by `ParseQualityRangeOfPair`, `ParseQualityRangeOfSingle` and `ParseQualityRangeExact` |
| Quality.ParseQualityRangeOfPair | src/main.rs:101-106 | with a `-`: min comes from the first field and max from the second; each falls back to 50 and 80 independently; later fields are ignored |
| Quality.ParseQualityRangeOfSingle | src/main.rs:101-106 | without a `-`: min is parsed or 50, and max is always 80 |
| Quality.ParseQualityRangeExact | src/main.rs:101-106 | two `u8` numbers joined by `-` come back exactly |
| Quality.ParseQualityRangeExamples | src/main.rs:919-926 | the unit test's cases hold ("50-80", "40-70", "20-60", "70-90", "60", "invalid"), as do "" and "-90" |
| Quality.Midpoint | src/main.rs:301-304 | the shared lossy quality lies between the two bounds, whichever is larger |
| Quality.MidpointAsWritten | src/main.rs:301-304 | the source's wrapping `u8` sum halved never exceeds 127 |
| Quality.MidpointAsWrittenWithoutOverflow | src/main.rs:301-304 | when min + max fits in a `u8`, the source's value is the midpoint |
| Quality.MidpointAsWrittenOverflow | src/main.rs:301-304 | when min + max exceeds 255, the source's value lies below both bounds and is not the midpoint |
| Quality.MidpointOverflowExample | src/main.rs:301-304 | "200-200" parses to (200, 200) and gives 72 as written, not 200 |
| Codecs.QuantizerPreset | src/main.rs:117-133 | speed 1 with 128 colours exactly when max <= 60, otherwise speed 3 with the default budget; the bounds are handed over unchanged |
| Codecs.JpegSettingsFor | src/main.rs:177-191 | mozjpeg is always progressive at the given quality, with the extra optimisation exactly when quality <= 60 |
| Codecs.Expanded | src/main.rs:146-154 | four bytes per index, namely that palette entry's r, g, b and a, in order |
| Codecs.ExpandPalette | src/main.rs:146-154 | the push loop produces `Expanded`: length 4n, and bytes 4i..4i+3 are entry indices[i]'s r, g, b, a |
| Codecs.CompressPng | src/main.rs:109-174 | a decode error is returned unchanged |
| Codecs.CompressPngWellBehavedQuantizer | src/main.rs:109-174 | with a quantizer that keeps its promise, the result is the PNG encoding of the expanded image, passed through oxipng exactly when asked |
| Codecs.CompressJpeg | src/main.rs:177-203 | a decode error is returned unchanged |
| Codecs.ToWebp | src/main.rs:206-212 | fails exactly when decoding fails |
| Codecs.HeicToJpeg | src/main.rs:215-227 | a failure to decode the input becomes the dedicated HEIC error |
| Codecs.ToTiff | src/main.rs:236-241 | a decode error is returned unchanged |
| Codecs.ToBmp | src/main.rs:244-249 | a decode error is returned unchanged |
| Codecs.ToIco | src/main.rs:252-272 | fails exactly when decoding fails or both the ICO and the PNG fallback writes fail, for the image resized to fit within 256x256, keeping its aspect ratio, when a side exceeds 256 |
| Codecs.ToAvif | src/main.rs:275-290 | a decode error is returned unchanged |
| Codecs.PngLossless | src/main.rs:341-348 | a decode error is returned unchanged |
| Dispatch.CompressImage | src/main.rs:293-360 | `compress_image_inproc` as its if-chain; its behaviour is stated by `CompressImageFollowsRoute` and the lemmas after it |
| Dispatch.CompressImageFollowsRoute | src/main.rs:293-360 | the if-chain equals the priority description: run the chosen route's single adapter and label its bytes with the route's content type |
| Dispatch.TargetRouteFollowed | src/main.rs:306-334 | when a conversion is requested, the if-chain runs the first requested target's adapter |
| Dispatch.ExtensionRouteFollowed | src/main.rs:336-359 | when no conversion is requested, the if-chain runs the extension's adapter |
| Dispatch.RequestedTargetsHead | src/main.rs:306-334 | the requested list is empty exactly when no flag is set, and its head is the first set flag in the order webp, avif, jpeg, png, tiff, bmp, ico |
| Dispatch.HeicOverridesOptions | src/main.rs:294-298 | HEIC/HEIF ignores every option: quality 85, `image/jpeg`, and the HEIC error for undecodable input |
| Dispatch.HeicJpegSettings | src/main.rs:294-298 | the HEIC path hands mozjpeg quality 85 without the extra optimisation |
| Dispatch.FirstRequestedTargetWins | src/main.rs:306-334 | without HEIC, the first requested conversion decides the route and the content type |
| Dispatch.LaterFlagsIgnored | src/main.rs:306-334 | option sets that agree on the first requested conversion and on the quality settings choose the same route |
| Dispatch.WebpBeatsAvif | src/main.rs:306-313 | with both WebP and AVIF requested, only WebP runs and the answer is `image/webp` |
| Dispatch.ExtensionFallback | src/main.rs:336-359 | "png" is quantized exactly when `png_lossy`; "jpg"/"jpeg" go to JPEG at 75; everything else is quantized PNG; the answer is PNG or JPEG |
| Dispatch.PngConversionIgnoresLossyFlag | src/main.rs:319-322 | a requested PNG conversion always quantizes |
| Dispatch.SharedLossyQuality | src/main.rs:301-318 | WebP, AVIF and requested JPEG share one quality, which, with the corrected midpoint, lies between the parsed bounds |
| Dispatch.RouteExt | src/main.rs:295-359 | every route has an extension announcing exactly its content type |
| Dispatch.KeptExtensionMime | src/main.rs:336-353 | an unconverted PNG or JPEG keeps its format, so its own extension names its content type |
| Dispatch.OnlyChosenAdapterRuns | src/main.rs:293-360 | two library sets that agree on the chosen route's calls give the same answer, whatever the other encoders do |
| Paths.WithFileName | src/main.rs:393-397 | replaces only the last component |
| Paths.Join | src/main.rs:398-403 | adds one component below the directory |
| Paths.StemAndExtension | src/main.rs:413 | stem, dot and extension rebuild the file name |
| Paths.ExtensionOfSetExtension | src/main.rs:413 | after setting a dot-free extension, `extension` reports exactly it and the stem is kept |
| Paths.ExtensionAfterPrefix | src/main.rs:394-397 | the `c_` prefix keeps the extension and extends the stem |
| Paths.PrefixedName | src/main.rs:394-397 | the output name always starts with `c_` |
| Paths.BuildOutputPath | src/main.rs:388-417 | the result has a name starting with `c_`; it sits in the output directory unless overwriting or none is given, otherwise beside the source; without a target it is `c_` + the source name |
| Paths.BuildOutputPathExtension | src/main.rs:412-416 | with a target extension the name has exactly that extension and keeps `c_` + the source's stem |
| Paths.BackupPathAppendsBak | src/main.rs:666-670 | the backup of `x.png` is `x.png.bak` beside it |
| Discovery.PathLessTotal | src/main.rs:383 | Rust's component-wise path order is total |
| Discovery.PathLessTransitive | src/main.rs:383 | the path order is transitive |
| Discovery.PathLessIrreflexive | src/main.rs:383 | the path order is irreflexive |
| Discovery.Sort | src/main.rs:383 | `sort` gives a sorted permutation |
| Discovery.SortedPermutationUnique | src/main.rs:383 | there is only one sorted permutation, so the result does not depend on the sorting algorithm |
| Discovery.Dedup | src/main.rs:384 | `dedup` keeps the same paths, and of a sorted list leaves a strictly sorted one |
| Discovery.StrictlySortedDistinct | src/main.rs:384 | a strictly sorted list has no repeated path |
| Discovery.SupportedFiles | src/main.rs:371-382 | a path is collected exactly when the walk reports it as a regular file with a supported extension |
| Discovery.DiscoverFiles | src/main.rs:362-386 | a file input gives itself when supported, else nothing; a directory gives exactly its supported regular files, strictly sorted, equal to dedup(sort(collected)) |
| Api.HttpExt | src/main.rs:483 | the handler's extension (the last `.` field, lower-cased); its behaviour is stated by `HttpExtOfAppended` and `HttpExtAfterPrefix` |
| Api.HttpExtOfAppended | src/main.rs:483 | a name ending in `.e` has derived extension `e`, for a lower-case, dot-free `e` |
| Api.HttpExtAfterPrefix | src/main.rs:483 | a prefix does not change the derived extension of a dotted name |
| Api.ReplaceAll | src/main.rs:500-516 | `replace` leaves a name alone when the pattern's last character does not occur in it |
| Api.DownloadNameAsWritten | src/main.rs:500-519 | the download name as the handler computes it; its behaviour is stated by `DownloadNameAsWrittenFallback`, `DownloadNameAsWrittenHeicWithFlag` and `DownloadNameAsWrittenMismatches` |
| Api.DownloadNameAsWrittenFallback | src/main.rs:514-518 | without conversion, a BMP/TIFF/WebP upload is named `c_` + name, yet it is served as PNG and its name does not announce PNG |
| Api.DownloadNameAsWrittenHeicWithFlag | src/main.rs:500-516 | a HEIC upload with WebP requested is renamed `.webp`, yet it is served as JPEG |
| Api.DownloadNameAsWrittenMismatches | src/main.rs:500-519 | witnesses: `x.heic` + webp gives `x.webp` holding JPEG; `PHOTO.PNG` + webp stays `PHOTO.PNG` holding WebP; `x.bmp` gives `c_x.bmp` holding PNG |
| Api.DownloadName | src/main.rs:500-519 | the download name's extension always announces exactly the content type served |
| Api.RequestFormat | src/main.rs:454-463 | one `output_format` switches on exactly its own flag and keeps everything else |
| Api.Accept | src/main.rs:440-475 | a field is refused (400) exactly when it is a stream error or a known field whose body cannot be read |
| Api.ReadForm | src/main.rs:440-475 | the field loop computes the fold, and refuses the form exactly when some item is refused |
| Api.FormRejectedIff | src/main.rs:440-475 | the fold is refused exactly when one of its items is |
| Api.AcceptFormatFlag | src/main.rs:452-464 | after one field, a format flag is on exactly when it was on before or the field names that format |
| Api.FormatFlagsAccumulate | src/main.rs:452-464 | format flags only switch on: after the form a flag is set exactly when it was set before or some `output_format` field names it |
| Api.LastField | src/main.rs:443-474 | the field found is in the form and has the asked-for kind |
| Api.AcceptSlot | src/main.rs:443-474 | one field sets its own kind's value and leaves every other single-valued field unchanged |
| Api.LastFieldWins | src/main.rs:443-474 | the file (with name `image` by default), `png_quality`, `oxipng` and `png_lossy` are last-one-wins; switches are on exactly when the text is `true`; an absent field keeps the default |
| Api.CompressApi | src/main.rs:424-529 | 400 for a refused form or an empty file; 500 for a dispatcher error or an invalid header value; otherwise 200 with the dispatcher's bytes, the chosen route's content type, and the download name the handler computes |
| Api.DownloadNameAnnouncesServedType | src/main.rs:488-524 | with the corrected download name, a successful answer's name always announces the content type of the bytes served |
| Cli.CliOptions | src/main.rs:628-639 | the command line requests only WebP or AVIF; no conversion exactly when neither flag is set |
| Cli.SourceExt | src/main.rs:610-614 | the worker's dispatch extension; its behaviour is stated by `SourceExtHasExtension` |
| Cli.SourceExtHasExtension | src/main.rs:610-614 | a non-empty dispatch extension comes from the path's lower-cased extension |
| Cli.CliOutputPathAsWritten | src/main.rs:617-653 | the worker's output path; its behaviour is stated by `CliOutputPathAsWrittenHeic`, `CliOutputPathAgreesExceptHeic` and the collision lemmas |
| Cli.CliOutputPathAsWrittenHeic | src/main.rs:617-653 | a HEIC source is always served as JPEG, but the written name ends in `.png`, `.webp` or `.avif` |
| Cli.CliOutputPathAsWrittenHeicWitness | src/main.rs:617-653 | `x.heic` without flags is written as `c_x.png` holding JPEG |
| Cli.CliOutputPath | src/main.rs:617-653 | the written file's extension always announces what the dispatcher produced; the file sits where `build_output_path` puts it |
| Cli.CliOutputPathAgreesExceptHeic | src/main.rs:617-653 | for every source but HEIC the worker's name equals the corrected one, so its extension announces the content type produced |
| Cli.TargetOutputCollision | src/main.rs:617-653 | with WebP or AVIF requested, two sources in one directory with the same stem get the same output path, as written and corrected |
| Cli.FallbackOutputCollision | src/main.rs:617-653 | without a target, a source re-encoded as PNG gets the same output path as the `.png` source with its stem in its directory, as written and corrected |
| Cli.OutputCollisionExample | src/main.rs:617-653 | with default arguments `x.bmp` and `x.png` are both written to `c_x.png` |
| Cli.TargetMime | src/main.rs:617-622 | the corrected target extension (HEIC first, as `jpg`) names what the dispatcher produces |
| Cli.TargetMimeAsWritten | src/main.rs:617-622 | for every source but HEIC, the worker's own target extension (WebP, then AVIF) names what the dispatcher produces |
| Cli.ProcessFile | src/main.rs:600-683 | ok exactly when read, compression, write and (when overwriting) both renames succeed; ok exactly when the message is empty; failure reports after = 0; on success the compressed bytes went to the name the worker computes, and the final file is the source when overwriting |
| Cli.ProcessAll | src/main.rs:598-684 | one record per file, in the files' order |
| Cli.SatAdd | src/main.rs:710-711 | `saturating_add` is never below either operand or above the sum; it is exact when the sum fits and the `u64` maximum otherwise |
| Cli.SatSub | src/main.rs:695 | `saturating_sub` is the difference, or 0 when it would be negative |
| Cli.CountOk | src/main.rs:712-714 | never more successes than records |
| Cli.SatAddMin | src/main.rs:710-711 | adding to a saturated running total gives the saturated exact sum |
| Cli.Summarize | src/main.rs:687-732 | totals are the exact sums over all records capped at `u64` max; processed counts successes; one line per record, then the total line or "nothing compressed" |
| Cli.TotalSavedBounded | src/main.rs:718 | total saved never exceeds total before, and is the exact difference below saturation |
| Cli.FailedRecordsInTotals | src/main.rs:691-715 | a failed record adds its size before to the totals, nothing after, and no success |
| Cli.RunBatch | src/main.rs:592-731 | nothing is processed exactly when no supported file is found; otherwise the discovered files are processed in order, the totals are the capped sums, and the printed lines are one per record followed by the total line or "nothing compressed" |

## Left out

- Lossy quantization, resampling, PNG/JPEG/WebP/AVIF/TIFF/BMP/ICO encoding, decoding and oxipng optimisation are opaque library calls (`Codecs`); only the parameters passed to them are modelled.
- Floating-point values are not modelled: the WebP and AVIF qualities are passed as the integer they are cast from, the dithering level is left out, and so are the percentages and `human_size` in the summary and the log lines.
- File-system effects are parameters (`FileIo`, the `walk` sequence): reading, writing, renaming, metadata, `canonicalize` and `create_dir_all`. Removing the backup after a successful overwrite is a side effect the model does not record.
- Cli.ProcessAll: the rayon worker pool is not modelled; each record is computed from the per-path `FileIo` answers and the records are collected in file order, as `collect` keeps it. The naming rule is not one-to-one (`Cli.TargetOutputCollision`, `Cli.FallbackOutputCollision`), so two workers can write the same output file: one output is silently lost while both records report success, a record's size after can be the other file's, and with `--overwrite` one worker can rename the other's output onto its own source (src/main.rs:659-682). The per-path file-system answers cannot express this interference, so the model does not capture it.
- The axum server setup, the index page, CORS, logging, browser opening, argument parsing and the web/CLI mode switch are left out.
- `to_lowercase` is modelled on ASCII letters only; non-ASCII case mapping is not modelled.
- File names that are not valid UTF-8 are not modelled; such a path's extension reads as empty, like a missing one.
- Paths are sequences of normal components; root markers, `.` and `..` are not modelled.
- Codecs.ToIco: a PNG written as the ICO fallback is still served as `image/x-icon`; the model reproduces this and proves nothing about it.
- Codecs.CompressPng: a palette index outside the palette (a panic in the source) is modelled as an error result.
- Cli.ProcessFile: when overwriting, the converted bytes (for example JPEG from a HEIC source) replace the source under its original name; the model records this as the source's path and does not correct it.
- Cli.Summarize: the totals add every record, failed ones included (a failed record contributes its size before and 0 after); the model follows the code.
- Cli.CliArgs: `png_lossy` and `oxipng` are free booleans in the model, but on the real command line both flags are `SetTrue` with default `true` (src/main.rs:57, 65), so they are always on; the model allows more argument values than the program can receive, and the lossless PNG route is reachable from the command line only in the model.
- Api.CompressApi and Cli.ProcessFile name their output exactly as the source does (`DownloadNameAsWritten`, `CliOutputPathAsWritten`); the corrected `Api.DownloadName` and `Cli.CliOutputPath` are proved beside them and are not used by the handlers.
- Cli.TargetMime: it is about the corrected target extension `CliTargetExt`, which the source does not compute; it backs the corrected `Cli.CliOutputPath`, and the worker's own extension is covered by `Cli.TargetMimeAsWritten` for non-HEIC sources only.
- Dispatch.CompressImage uses the corrected `Midpoint`; the wrapping sum of the source is modelled separately as `MidpointAsWritten`.

## Findings

| source | as written | input that shows it | evidently intended | confidence | as-written member | corrected member |
|---|---|---|---|---|---|---|
| src/main.rs:301-304 | `(min_q + max_q) / 2` adds two `u8` values, which wraps in a release build (and panics in a debug build) once the sum exceeds 255 | `png_quality` "200-200" with WebP requested: quality 72 instead of 200 | the midpoint of the two bounds | not executed | Quality.MidpointOverflowExample | Quality.Midpoint |
| src/main.rs:500-519 | the download name checks the conversion flags before HEIC, replaces `.ext` case-sensitively after the extension was lower-cased, and keeps a fallback-to-PNG upload's own extension | `x.heic` with webp gives `x.webp` holding JPEG; `PHOTO.PNG` with webp stays `PHOTO.PNG` holding WebP; `x.bmp` gives `c_x.bmp` holding PNG | a name whose extension announces the content type served | not executed | Api.DownloadNameAsWrittenMismatches | Api.DownloadName |
| src/main.rs:617-653 | the output extension ignores the HEIC-to-JPEG conversion and falls back to `.png` (or the target extension) | `x.heic` without flags is written as `c_x.png` holding JPEG | `c_x.jpg` | not executed | Cli.CliOutputPathAsWrittenHeicWitness | Cli.CliOutputPath |
