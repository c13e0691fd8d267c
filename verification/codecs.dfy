/** The per-format codec adapters (src/main.rs:108-290). The image libraries
    they call (the `image` crate's decoder and encoders, imagequant, mozjpeg,
    the WebP and AVIF encoders, oxipng, Lanczos resizing) are not modelled:
    they are the function-valued fields of `Codecs`, passed in by the caller,
    so that every property proved here holds whatever those libraries do.
    What is modelled is the glue: which library call gets which parameters,
    how failures propagate, the quantizer and JPEG presets, the ICO resize and
    PNG fallback, and the palette expansion loop. */
module Codecs {
  import opened Basics
  import opened Quality

  /** A decoded image (`DynamicImage`); the pixel layout is the libraries' business. */
  datatype Image = Image(width: nat, height: nat, pixels: seq<uint8>)

  /** One palette entry of the quantizer's output. */
  datatype Rgba = Rgba(r: uint8, g: uint8, b: uint8, a: uint8)

  /** The quantizer's remapped output: a palette and one palette index per pixel. */
  datatype Remapped = Remapped(palette: seq<Rgba>, indices: seq<uint8>)

  /** The containers written through the `image` crate. */
  datatype ImageFormat = PngFormat | JpegFormat | TiffFormat | BmpFormat | IcoFormat

  /** The imagequant attributes the adapter sets. */
  datatype QuantizerSettings = QuantizerSettings(
    speed: nat, maxColors: Option<nat>, minQuality: uint8, maxQuality: uint8)

  /** The mozjpeg settings: `optimize` stands for both optimize_coding and optimize_scans. */
  datatype JpegSettings = JpegSettings(quality: uint8, progressive: bool, optimize: bool)

  /** The ravif settings. */
  datatype AvifSettings = AvifSettings(quality: uint8, speed: nat)

  /** The library calls the adapters make, each a black box that may fail with a message. */
  datatype Codecs = Codecs(
    decode: seq<uint8> -> Result<Image, string>,                   // image::load_from_memory
    quantize: (Image, QuantizerSettings) -> Result<Remapped, string>, // imagequant quantize + remap
    write: (Image, ImageFormat) -> Result<seq<uint8>, string>,      // DynamicImage::write_to
    optimizePng: seq<uint8> -> Result<seq<uint8>, string>,          // oxipng preset 6, safe strip
    mozjpeg: (Image, JpegSettings) -> Result<seq<uint8>, string>,
    webp: (Image, uint8) -> seq<uint8>,                             // `encode` returns no Result; its failures are not modelled
    avif: (Image, AvifSettings) -> Result<seq<uint8>, string>,
    resize: (Image, nat, nat) -> Image)                             // Lanczos3, keeps aspect ratio

  const HeicDecodeError: string := "Unsupported HEIC format or corrupted file"
  const RgbaBuildError: string := "failed to build indexed->rgba image"
  /** Where the source indexes the palette out of bounds it panics; the model reports it. */
  const PaletteIndexPanic: string := "palette index out of bounds"

  const IcoMaxSide: nat := 256
  const AvifSpeed: nat := 6

  /** The two quantizer presets, chosen by the upper quality bound alone: speed 1 and
      a 128-colour budget exactly when `max <= 60`, otherwise speed 3 and the default
      budget. The bounds are handed to the quantizer unchanged. */
  function QuantizerPreset(q: QualityRange): (s: QuantizerSettings)
    ensures s.minQuality == q.min && s.maxQuality == q.max
    ensures s.speed == 1 <==> q.max <= 60
    ensures s.maxColors == Some(128) <==> q.max <= 60
    ensures s.speed in {1, 3} && (s.maxColors.None? <==> s.speed == 3)
  {
    if q.max <= 60 then QuantizerSettings(1, Some(128), q.min, q.max)
    else QuantizerSettings(3, None, q.min, q.max)
  }

  /** mozjpeg is always progressive and at the given quality; the extra coding and
      scan optimisation is on exactly when `quality <= 60`. */
  function JpegSettingsFor(quality: uint8): (s: JpegSettings)
    ensures s.quality == quality && s.progressive
    ensures s.optimize <==> quality <= 60
  {
    JpegSettings(quality, true, quality <= 60)
  }

  /** The four bytes of one palette entry. */
  function Channels(p: Rgba): seq<uint8> {
    [p.r, p.g, p.b, p.a]
  }

  predicate IndicesInPalette(palette: seq<Rgba>, indices: seq<uint8>) {
    forall k :: 0 <= k < |indices| ==> indices[k] < |palette|
  }

  /** The flat RGBA buffer for palette indices: four bytes per index, those of the
      palette entry it names, in order. */
  function Expanded(palette: seq<Rgba>, indices: seq<uint8>): (out: seq<uint8>)
    requires IndicesInPalette(palette, indices)
    ensures |out| == 4 * |indices|
    ensures forall i :: 0 <= i < |indices| ==> out[4 * i..4 * i + 4] == Channels(palette[indices[i]])
  {
    if indices == [] then []
    else
      var n := |indices| - 1;
      var prefix := Expanded(palette, indices[..n]);
      var out := prefix + Channels(palette[indices[n]]);
      assert forall i :: 0 <= i < n ==> out[4 * i..4 * i + 4] == prefix[4 * i..4 * i + 4];
      out
  }

  /** The loop of src/main.rs:147-154: push r, g, b, a of each index's palette entry. */
  method ExpandPalette(palette: seq<Rgba>, indices: seq<uint8>) returns (expanded: seq<uint8>)
    requires IndicesInPalette(palette, indices)
    ensures expanded == Expanded(palette, indices)
    ensures |expanded| == 4 * |indices|
    ensures forall i :: 0 <= i < |indices| ==>
      expanded[4 * i] == palette[indices[i]].r && expanded[4 * i + 1] == palette[indices[i]].g &&
      expanded[4 * i + 2] == palette[indices[i]].b && expanded[4 * i + 3] == palette[indices[i]].a
  {
    expanded := [];
    var k := 0;
    while k < |indices|
      invariant 0 <= k <= |indices|
      invariant expanded == Expanded(palette, indices[..k])
    {
      var p := palette[indices[k]];
      ghost var before := expanded;
      expanded := expanded + [p.r];
      expanded := expanded + [p.g];
      expanded := expanded + [p.b];
      expanded := expanded + [p.a];
      assert expanded == before + Channels(p);
      assert indices[..k + 1][..k] == indices[..k];
      assert Expanded(palette, indices[..k + 1]) == Expanded(palette, indices[..k]) + Channels(p);
      k := k + 1;
    }
    assert indices[..k] == indices;
    forall i | 0 <= i < |indices|
      ensures expanded[4 * i] == palette[indices[i]].r && expanded[4 * i + 1] == palette[indices[i]].g
      ensures expanded[4 * i + 2] == palette[indices[i]].b && expanded[4 * i + 3] == palette[indices[i]].a
    {
      var chunk := expanded[4 * i..4 * i + 4];
      assert chunk == Channels(palette[indices[i]]);
      assert chunk[0] == expanded[4 * i] && chunk[1] == expanded[4 * i + 1];
      assert chunk[2] == expanded[4 * i + 2] && chunk[3] == expanded[4 * i + 3];
    }
  }

  /** `compress_png_bytes`: decode, quantize with the preset for the parsed range,
      expand the palette, rebuild the RGBA image, write it as PNG and, when asked,
      pass it through oxipng. */
  function CompressPng(c: Codecs, input: seq<uint8>, qualityRange: string, runOxipng: bool)
    : (r: Result<seq<uint8>, string>)
    ensures c.decode(input).Err? ==> r == Err(c.decode(input).error)
  {
    var img :- c.decode(input);
    var remapped :- c.quantize(img, QuantizerPreset(ParseQualityRange(qualityRange)));
    if !IndicesInPalette(remapped.palette, remapped.indices) then Err(PaletteIndexPanic)
    else
      var expanded := Expanded(remapped.palette, remapped.indices);
      if |expanded| < img.width * img.height * 4 then Err(RgbaBuildError)
      else
        var png :- c.write(Image(img.width, img.height, expanded), PngFormat);
        if runOxipng then c.optimizePng(png) else Ok(png)
  }

  /** `compress_jpeg_bytes`: decode, then mozjpeg with the preset for `quality`. */
  function CompressJpeg(c: Codecs, input: seq<uint8>, quality: uint8): (r: Result<seq<uint8>, string>)
    ensures c.decode(input).Err? ==> r == Err(c.decode(input).error)
  {
    var img :- c.decode(input);
    c.mozjpeg(img, JpegSettingsFor(quality))
  }

  /** `to_webp_bytes`: fails only when decoding fails; `encode` returns no Result. */
  function ToWebp(c: Codecs, input: seq<uint8>, quality: uint8): (r: Result<seq<uint8>, string>)
    ensures r.Ok? <==> c.decode(input).Ok?
  {
    var img :- c.decode(input);
    Ok(c.webp(img, quality))
  }

  /** `heic_to_jpeg_bytes`: a failure to decode the input becomes the dedicated
      HEIC error; otherwise the image is written as a plain JPEG and re-compressed
      by mozjpeg, whose own decoding error passes through unchanged. The source
      converts to RGB8 before writing; with `write` opaque the model hands it the
      decoded image directly. */
  function HeicToJpeg(c: Codecs, input: seq<uint8>, quality: uint8): (r: Result<seq<uint8>, string>)
    ensures c.decode(input).Err? ==> r == Err(HeicDecodeError)
  {
    match c.decode(input)
    case Err(_) => Err(HeicDecodeError)
    case Ok(img) =>
      var jpeg :- c.write(img, JpegFormat);
      CompressJpeg(c, jpeg, quality)
  }

  /** `to_tiff_bytes`: decode and write as TIFF, no quality parameter. */
  function ToTiff(c: Codecs, input: seq<uint8>): (r: Result<seq<uint8>, string>)
    ensures c.decode(input).Err? ==> r == Err(c.decode(input).error)
  {
    var img :- c.decode(input);
    c.write(img, TiffFormat)
  }

  /** `to_bmp_bytes`: decode and write as BMP, no quality parameter. */
  function ToBmp(c: Codecs, input: seq<uint8>): (r: Result<seq<uint8>, string>)
    ensures c.decode(input).Err? ==> r == Err(c.decode(input).error)
  {
    var img :- c.decode(input);
    c.write(img, BmpFormat)
  }

  /** The image `to_ico_bytes` encodes: resized to fit 256x256 exactly when a side exceeds 256. */
  function IcoSource(c: Codecs, img: Image): Image {
    if img.width > IcoMaxSide || img.height > IcoMaxSide then c.resize(img, IcoMaxSide, IcoMaxSide) else img
  }

  /** `to_ico_bytes`: decode, resize if needed, write ICO, and write PNG instead when the
      ICO encoder rejects the image. It fails only when decoding fails or both writes do. */
  function ToIco(c: Codecs, input: seq<uint8>): (r: Result<seq<uint8>, string>)
    ensures r.Err? <==> (c.decode(input).Err? ||
      (c.write(IcoSource(c, c.decode(input).value), IcoFormat).Err? &&
       c.write(IcoSource(c, c.decode(input).value), PngFormat).Err?))
  {
    var img :- c.decode(input);
    var icon := IcoSource(c, img);
    match c.write(icon, IcoFormat)
    case Ok(bytes) => Ok(bytes)
    case Err(_) => c.write(icon, PngFormat)
  }

  /** `to_avif_bytes`: decode, then ravif at `quality` and the fixed speed 6. */
  function ToAvif(c: Codecs, input: seq<uint8>, quality: uint8): (r: Result<seq<uint8>, string>)
    ensures c.decode(input).Err? ==> r == Err(c.decode(input).error)
  {
    var img :- c.decode(input);
    c.avif(img, AvifSettings(quality, AvifSpeed))
  }

  /** The lossless PNG branch of the dispatcher: decode and re-write as PNG. */
  function PngLossless(c: Codecs, input: seq<uint8>): (r: Result<seq<uint8>, string>)
    ensures c.decode(input).Err? ==> r == Err(c.decode(input).error)
  {
    var img :- c.decode(input);
    c.write(img, PngFormat)
  }

  /** When imagequant keeps its promise (every index names a palette entry and
      there is one index per pixel), the RGBA image is always rebuilt, and the
      bytes returned are the PNG encoder's, or oxipng's output on them. */
  lemma CompressPngWellBehavedQuantizer(c: Codecs, input: seq<uint8>, qualityRange: string, runOxipng: bool)
    requires c.decode(input).Ok?
    requires var img := c.decode(input).value;
      var rm := c.quantize(img, QuantizerPreset(ParseQualityRange(qualityRange)));
      rm.Ok? && IndicesInPalette(rm.value.palette, rm.value.indices) &&
      |rm.value.indices| == img.width * img.height
    ensures var img := c.decode(input).value;
      var rm := c.quantize(img, QuantizerPreset(ParseQualityRange(qualityRange))).value;
      var png := c.write(Image(img.width, img.height, Expanded(rm.palette, rm.indices)), PngFormat);
      CompressPng(c, input, qualityRange, runOxipng) ==
        if png.Err? then Err(png.error) else if runOxipng then c.optimizePng(png.value) else png
  {
  }
}
