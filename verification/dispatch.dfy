/** The dispatch engine `compress_image_inproc` (src/main.rs:292-360): a fixed,
    first-match-wins priority list from (extension, options) to one adapter
    call and a content type. */
module Dispatch {
  import opened Basics
  import opened Quality
  import opened Codecs

  /** `CompressionOptions` (src/main.rs:82-94). */
  datatype CompressionOptions = CompressionOptions(
    pngLossy: bool,
    pngQuality: string,
    oxipng: bool,
    toWebp: bool,
    toAvif: bool,
    toJpeg: bool,
    toPng: bool,
    toTiff: bool,
    toBmp: bool,
    toIco: bool)

  /** What the dispatcher returns: the bytes and their MIME type. */
  datatype Compressed = Compressed(bytes: seq<uint8>, contentType: string)

  const HeicQuality: uint8 := 85
  const JpegExtensionQuality: uint8 := 75

  predicate IsHeic(ext: string) {
    ext == "heic" || ext == "heif"
  }

  /** `let bytes = adapter(...)?; Ok((bytes, content_type))`: an adapter's error
      passes through; its bytes are labelled with the content type. */
  function Labelled(r: Result<seq<uint8>, string>, contentType: string): Result<Compressed, string> {
    var bytes :- r;
    Ok(Compressed(bytes, contentType))
  }

  /** `compress_image_inproc`, branch by branch as the source writes it. The shared
      lossy quality is the overflow-free `Midpoint` (see `MidpointAsWritten`). What
      it computes is stated by `CompressImageFollowsRoute`. */
  function CompressImage(c: Codecs, input: seq<uint8>, ext: string, opts: CompressionOptions)
    : Result<Compressed, string>
  {
    if IsHeic(ext) then Labelled(HeicToJpeg(c, input, HeicQuality), "image/jpeg")
    else
      var quality := Midpoint(ParseQualityRange(opts.pngQuality));
      if opts.toWebp then Labelled(ToWebp(c, input, quality), "image/webp")
      else if opts.toAvif then Labelled(ToAvif(c, input, quality), "image/avif")
      else if opts.toJpeg then Labelled(CompressJpeg(c, input, quality), "image/jpeg")
      else if opts.toPng then Labelled(CompressPng(c, input, opts.pngQuality, opts.oxipng), "image/png")
      else if opts.toTiff then Labelled(ToTiff(c, input), "image/tiff")
      else if opts.toBmp then Labelled(ToBmp(c, input), "image/bmp")
      else if opts.toIco then Labelled(ToIco(c, input), "image/x-icon")
      else if ext == "png" then
        if opts.pngLossy then Labelled(CompressPng(c, input, opts.pngQuality, opts.oxipng), "image/png")
        else Labelled(PngLossless(c, input), "image/png")
      else if ext == "jpg" || ext == "jpeg" then Labelled(CompressJpeg(c, input, JpegExtensionQuality), "image/jpeg")
      else Labelled(CompressPng(c, input, opts.pngQuality, opts.oxipng), "image/png")
  }

  // ---------------------------------------------------------------------------
  // A second, declarative description of the same decision, against which the
  // if-chain above is checked.

  /** A conversion the options can request. */
  datatype Target = WebpTarget | AvifTarget | JpegTarget | PngTarget | TiffTarget | BmpTarget | IcoTarget

  /** The requested conversions, in the documented priority order. */
  function RequestedTargets(opts: CompressionOptions): seq<Target> {
    (if opts.toWebp then [WebpTarget] else []) +
    (if opts.toAvif then [AvifTarget] else []) +
    (if opts.toJpeg then [JpegTarget] else []) +
    (if opts.toPng then [PngTarget] else []) +
    (if opts.toTiff then [TiffTarget] else []) +
    (if opts.toBmp then [BmpTarget] else []) +
    (if opts.toIco then [IcoTarget] else [])
  }

  /** Which adapter runs, with which parameters. */
  datatype Route =
    | HeicRoute(heicQuality: uint8)
    | WebpRoute(webpQuality: uint8)
    | AvifRoute(avifQuality: uint8)
    | JpegRoute(jpegQuality: uint8)
    | QuantizedPngRoute(range: string, runOxipng: bool)
    | TiffRoute
    | BmpRoute
    | IcoRoute
    | LosslessPngRoute

  function TargetRoute(t: Target, opts: CompressionOptions): Route {
    var quality := Midpoint(ParseQualityRange(opts.pngQuality));
    match t
    case WebpTarget => WebpRoute(quality)
    case AvifTarget => AvifRoute(quality)
    case JpegTarget => JpegRoute(quality)
    case PngTarget => QuantizedPngRoute(opts.pngQuality, opts.oxipng)
    case TiffTarget => TiffRoute
    case BmpTarget => BmpRoute
    case IcoTarget => IcoRoute
  }

  function ExtensionRoute(ext: string, opts: CompressionOptions): Route {
    if ext == "png" && !opts.pngLossy then LosslessPngRoute
    else if ext == "jpg" || ext == "jpeg" then JpegRoute(JpegExtensionQuality)
    else QuantizedPngRoute(opts.pngQuality, opts.oxipng)
  }

  /** HEIC input first; then the first requested conversion; then the extension. */
  function ChooseRoute(ext: string, opts: CompressionOptions): Route {
    if IsHeic(ext) then HeicRoute(HeicQuality)
    else if RequestedTargets(opts) != [] then TargetRoute(RequestedTargets(opts)[0], opts)
    else ExtensionRoute(ext, opts)
  }

  function ContentType(route: Route): string {
    match route
    case HeicRoute(_) => "image/jpeg"
    case WebpRoute(_) => "image/webp"
    case AvifRoute(_) => "image/avif"
    case JpegRoute(_) => "image/jpeg"
    case QuantizedPngRoute(_, _) => "image/png"
    case TiffRoute => "image/tiff"
    case BmpRoute => "image/bmp"
    case IcoRoute => "image/x-icon"
    case LosslessPngRoute => "image/png"
  }

  /** Runs the one adapter a route names. */
  function RunRoute(c: Codecs, input: seq<uint8>, route: Route): Result<seq<uint8>, string> {
    match route
    case HeicRoute(q) => HeicToJpeg(c, input, q)
    case WebpRoute(q) => ToWebp(c, input, q)
    case AvifRoute(q) => ToAvif(c, input, q)
    case JpegRoute(q) => CompressJpeg(c, input, q)
    case QuantizedPngRoute(range, runOxipng) => CompressPng(c, input, range, runOxipng)
    case TiffRoute => ToTiff(c, input)
    case BmpRoute => ToBmp(c, input)
    case IcoRoute => ToIco(c, input)
    case LosslessPngRoute => PngLossless(c, input)
  }

  /** The if-chain does exactly what the priority description says: it runs the
      route's adapter and labels the bytes with the route's content type. */
  lemma CompressImageFollowsRoute(c: Codecs, input: seq<uint8>, ext: string, opts: CompressionOptions)
    ensures var route := ChooseRoute(ext, opts);
      CompressImage(c, input, ext, opts) == Labelled(RunRoute(c, input, route), ContentType(route))
  {
    RequestedTargetsHead(opts);
    if !IsHeic(ext) && RequestedTargets(opts) == [] {
      ExtensionRouteFollowed(c, input, ext, opts);
    } else if !IsHeic(ext) {
      TargetRouteFollowed(c, input, ext, opts);
    }
  }

  lemma TargetRouteFollowed(c: Codecs, input: seq<uint8>, ext: string, opts: CompressionOptions)
    requires !IsHeic(ext) && RequestedTargets(opts) != []
    ensures var route := TargetRoute(RequestedTargets(opts)[0], opts);
      CompressImage(c, input, ext, opts) == Labelled(RunRoute(c, input, route), ContentType(route))
  {
    RequestedTargetsHead(opts);
  }

  lemma ExtensionRouteFollowed(c: Codecs, input: seq<uint8>, ext: string, opts: CompressionOptions)
    requires !IsHeic(ext) && RequestedTargets(opts) == []
    ensures var route := ExtensionRoute(ext, opts);
      CompressImage(c, input, ext, opts) == Labelled(RunRoute(c, input, route), ContentType(route))
  {
    RequestedTargetsHead(opts);
  }

  /** The head of the requested list is the first flag set, in priority order. */
  lemma RequestedTargetsHead(opts: CompressionOptions)
    ensures RequestedTargets(opts) == [] <==>
      !(opts.toWebp || opts.toAvif || opts.toJpeg || opts.toPng || opts.toTiff || opts.toBmp || opts.toIco)
    ensures opts.toWebp ==> RequestedTargets(opts)[0] == WebpTarget
    ensures !opts.toWebp && opts.toAvif ==> RequestedTargets(opts)[0] == AvifTarget
    ensures !opts.toWebp && !opts.toAvif && opts.toJpeg ==> RequestedTargets(opts)[0] == JpegTarget
    ensures !opts.toWebp && !opts.toAvif && !opts.toJpeg && opts.toPng ==> RequestedTargets(opts)[0] == PngTarget
    ensures !opts.toWebp && !opts.toAvif && !opts.toJpeg && !opts.toPng && opts.toTiff ==>
      RequestedTargets(opts)[0] == TiffTarget
    ensures !opts.toWebp && !opts.toAvif && !opts.toJpeg && !opts.toPng && !opts.toTiff && opts.toBmp ==>
      RequestedTargets(opts)[0] == BmpTarget
    ensures !opts.toWebp && !opts.toAvif && !opts.toJpeg && !opts.toPng && !opts.toTiff && !opts.toBmp && opts.toIco ==>
      RequestedTargets(opts)[0] == IcoTarget
  {
  }

  /** A HEIC or HEIF extension overrides every option: the HEIC path runs at quality 85
      and the answer, when there is one, is `image/jpeg`. Undecodable input fails with
      the dedicated HEIC error. */
  lemma HeicOverridesOptions(c: Codecs, input: seq<uint8>, ext: string, opts: CompressionOptions)
    requires IsHeic(ext)
    ensures ChooseRoute(ext, opts) == HeicRoute(85)
    ensures CompressImage(c, input, ext, opts).Ok? ==>
      CompressImage(c, input, ext, opts).value.contentType == "image/jpeg"
    ensures c.decode(input).Err? ==> CompressImage(c, input, ext, opts) == Err(HeicDecodeError)
  {
  }

  /** The HEIC path hands mozjpeg quality 85 without the extra optimisation, whatever
      the options say. */
  lemma HeicJpegSettings(c: Codecs, input: seq<uint8>, ext: string, opts: CompressionOptions,
                         img: Image, plain: seq<uint8>, reread: Image)
    requires IsHeic(ext)
    requires c.decode(input) == Ok(img) && c.write(img, JpegFormat) == Ok(plain)
    requires c.decode(plain) == Ok(reread)
    ensures var r := c.mozjpeg(reread, JpegSettings(85, true, false));
      CompressImage(c, input, ext, opts) ==
        if r.Err? then Err(r.error) else Ok(Compressed(r.value, "image/jpeg"))
  {
  }

  function TargetContentType(t: Target): string {
    match t
    case WebpTarget => "image/webp"
    case AvifTarget => "image/avif"
    case JpegTarget => "image/jpeg"
    case PngTarget => "image/png"
    case TiffTarget => "image/tiff"
    case BmpTarget => "image/bmp"
    case IcoTarget => "image/x-icon"
  }

  /** Without a HEIC extension, the first requested conversion in the order webp, avif,
      jpeg, png, tiff, bmp, ico decides the route and the content type. */
  lemma FirstRequestedTargetWins(ext: string, opts: CompressionOptions)
    requires !IsHeic(ext) && RequestedTargets(opts) != []
    ensures var t := RequestedTargets(opts)[0];
      ChooseRoute(ext, opts) == TargetRoute(t, opts) &&
      ContentType(ChooseRoute(ext, opts)) == TargetContentType(t)
  {
  }

  /** Flags after the first requested one are ignored: two option sets that agree on
      the quality settings and on the first requested conversion choose the same route. */
  lemma LaterFlagsIgnored(ext: string, a: CompressionOptions, b: CompressionOptions)
    requires a.pngLossy == b.pngLossy && a.pngQuality == b.pngQuality && a.oxipng == b.oxipng
    requires RequestedTargets(a) != [] && RequestedTargets(b) != []
    requires RequestedTargets(a)[0] == RequestedTargets(b)[0]
    ensures ChooseRoute(ext, a) == ChooseRoute(ext, b)
  {
  }

  /** Both WebP and AVIF requested: only WebP runs (the source's priority scenario). */
  lemma WebpBeatsAvif(c: Codecs, input: seq<uint8>, ext: string, opts: CompressionOptions)
    requires !IsHeic(ext) && opts.toWebp && opts.toAvif
    ensures ChooseRoute(ext, opts).WebpRoute?
    ensures CompressImage(c, input, ext, opts).Ok? ==>
      CompressImage(c, input, ext, opts).value.contentType == "image/webp"
  {
  }

  /** With no conversion requested: "png" is quantized exactly when `pngLossy`, "jpg"
      and "jpeg" go to JPEG at the fixed quality 75 whatever the quality range says,
      anything else is quantized PNG; the answer is always PNG or JPEG. */
  lemma ExtensionFallback(ext: string, opts: CompressionOptions)
    requires !IsHeic(ext) && RequestedTargets(opts) == []
    ensures ext == "png" ==> (ChooseRoute(ext, opts).QuantizedPngRoute? <==> opts.pngLossy)
    ensures ext == "png" ==> ChooseRoute(ext, opts) in {QuantizedPngRoute(opts.pngQuality, opts.oxipng), LosslessPngRoute}
    ensures (ext == "jpg" || ext == "jpeg") ==> ChooseRoute(ext, opts) == JpegRoute(75)
    ensures ext !in {"png", "jpg", "jpeg"} ==> ChooseRoute(ext, opts) == QuantizedPngRoute(opts.pngQuality, opts.oxipng)
    ensures ContentType(ChooseRoute(ext, opts)) in {"image/png", "image/jpeg"}
  {
  }

  /** A requested PNG conversion always quantizes, even when `pngLossy` is off. */
  lemma PngConversionIgnoresLossyFlag(ext: string, opts: CompressionOptions)
    requires !IsHeic(ext) && RequestedTargets(opts) != [] && RequestedTargets(opts)[0] == PngTarget
    ensures ChooseRoute(ext, opts) == QuantizedPngRoute(opts.pngQuality, opts.oxipng)
  {
  }

  /** WebP, AVIF and a requested JPEG share one quality, which lies between the two
      parsed bounds. */
  lemma SharedLossyQuality(ext: string, opts: CompressionOptions)
    requires !IsHeic(ext) && RequestedTargets(opts) != []
    requires RequestedTargets(opts)[0] in {WebpTarget, AvifTarget, JpegTarget}
    ensures var q := ParseQualityRange(opts.pngQuality);
      var route := ChooseRoute(ext, opts);
      var quality := if route.WebpRoute? then route.webpQuality
                     else if route.AvifRoute? then route.avifQuality else route.jpegQuality;
      quality == Midpoint(q) &&
      (q.min <= q.max ==> q.min <= quality <= q.max) &&
      (q.max <= q.min ==> q.max <= quality <= q.min)
  {
    var t := RequestedTargets(opts)[0];
    assert ChooseRoute(ext, opts) == TargetRoute(t, opts);
  }

  // ---------------------------------------------------------------------------
  // Extensions and the content types they announce.

  /** The MIME type a file's extension announces. */
  function ExtMime(ext: string): Option<string> {
    if ext == "png" then Some("image/png")
    else if ext == "jpg" || ext == "jpeg" then Some("image/jpeg")
    else if ext == "webp" then Some("image/webp")
    else if ext == "avif" then Some("image/avif")
    else if ext == "tiff" || ext == "tif" then Some("image/tiff")
    else if ext == "bmp" then Some("image/bmp")
    else if ext == "ico" then Some("image/x-icon")
    else None
  }

  /** The extension that names what a route produces. */
  function RouteExt(route: Route): (e: string)
    ensures ExtMime(e) == Some(ContentType(route))
  {
    match route
    case HeicRoute(_) => "jpg"
    case WebpRoute(_) => "webp"
    case AvifRoute(_) => "avif"
    case JpegRoute(_) => "jpg"
    case QuantizedPngRoute(_, _) => "png"
    case TiffRoute => "tiff"
    case BmpRoute => "bmp"
    case IcoRoute => "ico"
    case LosslessPngRoute => "png"
  }

  predicate PlainExtension(e: string) {
    forall i :: 0 <= i < |e| ==> e[i] != '.' && !IsAsciiUpper(e[i])
  }

  lemma RouteExtPlain(route: Route)
    ensures PlainExtension(RouteExt(route))
  {
  }

  /** An untouched PNG or JPEG upload keeps its format, so its own extension names it. */
  lemma KeptExtensionMime(ext: string, opts: CompressionOptions)
    requires RequestedTargets(opts) == [] && ext in {"png", "jpg", "jpeg"}
    ensures ExtMime(ext) == Some(ContentType(ChooseRoute(ext, opts)))
  {
    ExtensionFallback(ext, opts);
  }

  /** Only `png` announces PNG. */
  lemma ExtMimePng(e: string)
    ensures ExtMime(e) == Some("image/png") <==> e == "png"
  {
  }

  // ---------------------------------------------------------------------------
  // Only the chosen adapter runs.

  ghost predicate SameDecode(c1: Codecs, c2: Codecs) {
    forall b :: c1.decode(b) == c2.decode(b)
  }

  ghost predicate SameWrite(c1: Codecs, c2: Codecs) {
    forall img, f :: c1.write(img, f) == c2.write(img, f)
  }

  ghost predicate SameMozjpeg(c1: Codecs, c2: Codecs) {
    forall img, s :: c1.mozjpeg(img, s) == c2.mozjpeg(img, s)
  }

  /** The two sets of libraries agree on every call the route may make. */
  ghost predicate AgreeOn(route: Route, c1: Codecs, c2: Codecs) {
    SameDecode(c1, c2) &&
    match route
    case HeicRoute(_) => SameWrite(c1, c2) && SameMozjpeg(c1, c2)
    case WebpRoute(_) => forall img, q :: c1.webp(img, q) == c2.webp(img, q)
    case AvifRoute(_) => forall img, s :: c1.avif(img, s) == c2.avif(img, s)
    case JpegRoute(_) => SameMozjpeg(c1, c2)
    case QuantizedPngRoute(_, _) =>
      SameWrite(c1, c2) &&
      (forall img, s :: c1.quantize(img, s) == c2.quantize(img, s)) &&
      (forall b :: c1.optimizePng(b) == c2.optimizePng(b))
    case TiffRoute => SameWrite(c1, c2)
    case BmpRoute => SameWrite(c1, c2)
    case IcoRoute => SameWrite(c1, c2) && forall img, w, h :: c1.resize(img, w, h) == c2.resize(img, w, h)
    case LosslessPngRoute => SameWrite(c1, c2)
  }

  /** Only the chosen adapter runs: two sets of libraries that agree on the calls the
      chosen route makes give the same answer, whatever the other encoders would do. */
  lemma OnlyChosenAdapterRuns(c1: Codecs, c2: Codecs, input: seq<uint8>, ext: string, opts: CompressionOptions)
    requires AgreeOn(ChooseRoute(ext, opts), c1, c2)
    ensures CompressImage(c1, input, ext, opts) == CompressImage(c2, input, ext, opts)
  {
    CompressImageFollowsRoute(c1, input, ext, opts);
    CompressImageFollowsRoute(c2, input, ext, opts);
    RunRouteAgrees(c1, c2, input, ChooseRoute(ext, opts));
  }

  lemma RunRouteAgrees(c1: Codecs, c2: Codecs, input: seq<uint8>, route: Route)
    requires AgreeOn(route, c1, c2)
    ensures RunRoute(c1, input, route) == RunRoute(c2, input, route)
  {
  }
}
