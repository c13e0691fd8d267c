/** The HTTP handler `compress_api` (src/main.rs:424-530): fold the multipart
    form into bytes, a file name and options, dispatch, name the download and
    build the response. */
module Api {
  import opened Basics
  import opened Quality
  import opened Codecs
  import opened Dispatch

  // ---------------------------------------------------------------------------
  // Extensions and MIME types.

  /** The extension the handler derives from an uploaded name: the text after the
      last `.` (the whole name when there is none), lower-cased. */
  function HttpExt(name: string): string {
    match LastIndex(name, '.')
    case None => Lower(name)
    case Some(i) => Lower(name[i + 1..])
  }

  /** Appending `.e` to any text makes `e` the derived extension, when `e` is a
      lower-case extension without a dot. */
  lemma HttpExtOfAppended(base: string, e: string)
    requires PlainExtension(e)
    ensures HttpExt(base + "." + e) == e
  {
    assert '.' !in e;
    LastIndexAppendWithout(base + ".", e, '.');
    assert LastIndex(base + ".", '.') == Some(|base|);
    var s := base + "." + e;
    assert s == (base + ".") + e;
    assert s[|base| + 1..] == e;
    LowerOfLowerCase(e);
  }

  /** A prefix does not change the derived extension of a name that has a dot. */
  lemma HttpExtAfterPrefix(prefix: string, name: string)
    requires '.' in name
    ensures HttpExt(prefix + name) == HttpExt(name)
  {
    LastIndexPrepend(prefix, name, '.');
    var i := LastIndex(name, '.').value;
    assert (prefix + name)[|prefix| + i + 1..] == name[i + 1..];
  }

  // ---------------------------------------------------------------------------
  // The download name.

  /** `str::replace`: every leftmost, non-overlapping occurrence of `pat`
      (compared exactly, case-sensitively) becomes `rep`. */
  function ReplaceAll(s: string, pat: string, rep: string): (r: string)
    requires pat != []
    ensures pat[|pat| - 1] !in s ==> r == s
    decreases |s|
  {
    if |s| < |pat| then s
    else if s[..|pat|] == pat then rep + ReplaceAll(s[|pat|..], pat, rep)
    else
      var rest := ReplaceAll(s[1..], pat, rep);
      assert s == [s[0]] + s[1..];
      [s[0]] + rest
  }

  /** The replacement the handler picks for `.ext`: the first requested
      conversion's extension, then `.jpg` for a HEIC upload; none otherwise. */
  function ReplacementAsWritten(ext: string, opts: CompressionOptions): Option<string> {
    if opts.toWebp then Some(".webp")
    else if opts.toAvif then Some(".avif")
    else if opts.toJpeg then Some(".jpg")
    else if opts.toPng then Some(".png")
    else if opts.toTiff then Some(".tiff")
    else if opts.toBmp then Some(".bmp")
    else if opts.toIco then Some(".ico")
    else if IsHeic(ext) then Some(".jpg")
    else None
  }

  /** The download name exactly as the handler computes it: every `.ext` in the
      name is replaced by the chosen extension, or, without one, the name is kept
      behind a `c_` prefix. */
  function DownloadNameAsWritten(name: string, opts: CompressionOptions): string {
    var ext := HttpExt(name);
    match ReplacementAsWritten(ext, opts)
    case Some(rep) => ReplaceAll(name, "." + ext, rep)
    case None => "c_" + name
  }

  /** Without a conversion or a HEIC upload the name is only prefixed, even when the
      dispatcher falls back to PNG: a BMP, TIFF or WebP upload (anything but PNG and
      JPEG) is served as PNG bytes under a name that does not say PNG. */
  lemma DownloadNameAsWrittenFallback(name: string, opts: CompressionOptions)
    requires RequestedTargets(opts) == [] && '.' in name
    requires !IsHeic(HttpExt(name)) && HttpExt(name) !in {"png", "jpg", "jpeg"}
    ensures DownloadNameAsWritten(name, opts) == "c_" + name
    ensures ContentType(ChooseRoute(HttpExt(name), opts)) == "image/png"
    ensures ExtMime(HttpExt(DownloadNameAsWritten(name, opts))) != Some("image/png")
  {
    RequestedTargetsHead(opts);
    ExtensionFallback(HttpExt(name), opts);
    HttpExtAfterPrefix("c_", name);
    ExtMimePng(HttpExt(name));
  }

  /** A HEIC upload is always served as JPEG, but a conversion flag renames it to
      the flag's format. */
  lemma DownloadNameAsWrittenHeicWithFlag(name: string, opts: CompressionOptions)
    requires HttpExt(name) == "heic" && opts.toWebp
    ensures DownloadNameAsWritten(name, opts) == ReplaceAll(name, ".heic", ".webp")
    ensures ContentType(ChooseRoute(HttpExt(name), opts)) == "image/jpeg"
  {
    assert ReplacementAsWritten(HttpExt(name), opts) == Some(".webp");
    assert "." + HttpExt(name) == ".heic";
  }

  /** Concrete witnesses: `x.heic` with WebP requested downloads as `x.webp` holding
      JPEG; `PHOTO.PNG` with WebP requested keeps `.PNG` (the replacement looks
      for `.png`); `x.bmp` without flags downloads as `c_x.bmp` holding PNG. */
  lemma DownloadNameAsWrittenMismatches(opts: CompressionOptions)
    requires opts.toWebp
    ensures DownloadNameAsWritten("x.heic", opts) == "x.webp"
    ensures ContentType(ChooseRoute(HttpExt("x.heic"), opts)) == "image/jpeg"
    ensures DownloadNameAsWritten("PHOTO.PNG", opts) == "PHOTO.PNG"
    ensures ContentType(ChooseRoute(HttpExt("PHOTO.PNG"), opts)) == "image/webp"
    ensures ExtMime(HttpExt("PHOTO.PNG")) == Some("image/png")
    ensures var plain := opts.(toWebp := false, toAvif := false, toJpeg := false, toPng := false,
                               toTiff := false, toBmp := false, toIco := false);
      DownloadNameAsWritten("x.bmp", plain) == "c_x.bmp" &&
      ContentType(ChooseRoute(HttpExt("x.bmp"), plain)) == "image/png" &&
      ExtMime(HttpExt("c_x.bmp")) == Some("image/bmp")
  {
    WitnessHeic(opts);
    WitnessUpperCase(opts);
    WitnessBmp(opts.(toWebp := false, toAvif := false, toJpeg := false, toPng := false,
                     toTiff := false, toBmp := false, toIco := false));
  }

  lemma HttpExtOfDotted(base: string, e: string, lowered: string)
    requires '.' !in e && Lower(e) == lowered
    ensures HttpExt(base + "." + e) == lowered
  {
    LastIndexAppendWithout(base + ".", e, '.');
    assert LastIndex(base + ".", '.') == Some(|base|);
    var s := base + "." + e;
    assert s == (base + ".") + e;
    assert s[|base| + 1..] == e;
  }

  lemma WitnessHeic(opts: CompressionOptions)
    requires opts.toWebp
    ensures DownloadNameAsWritten("x.heic", opts) == "x.webp"
    ensures ContentType(ChooseRoute(HttpExt("x.heic"), opts)) == "image/jpeg"
  {
    LowerOfLowerCase("heic");
    HttpExtOfDotted("x", "heic", "heic");
    HeicLiterals();
    DownloadNameAsWrittenHeicWithFlag("x.heic", opts);
  }

  lemma HeicLiterals()
    ensures "x" + "." + "heic" == "x.heic"
    ensures ReplaceAll("x.heic", ".heic", ".webp") == "x.webp"
  {
    var s := "x.heic";
    assert s[..5][0] == 'x';
    assert s[1..][..5] == ".heic";
    assert s[1..][5..] == [];
    assert ReplaceAll(s, ".heic", ".webp") == [s[0]] + ReplaceAll(s[1..], ".heic", ".webp");
  }

  lemma WitnessUpperCase(opts: CompressionOptions)
    requires opts.toWebp
    ensures DownloadNameAsWritten("PHOTO.PNG", opts) == "PHOTO.PNG"
    ensures ContentType(ChooseRoute(HttpExt("PHOTO.PNG"), opts)) == "image/webp"
    ensures ExtMime(HttpExt("PHOTO.PNG")) == Some("image/png")
  {
    UpperCaseLiterals();
    assert ReplacementAsWritten("png", opts) == Some(".webp");
  }

  lemma UpperCaseLiterals()
    ensures HttpExt("PHOTO.PNG") == "png"
    ensures "." + "png" == ".png"
    ensures ReplaceAll("PHOTO.PNG", ".png", ".webp") == "PHOTO.PNG"
  {
    var e := "PNG";
    assert Lower(e) == "png" by {
      assert Lower(e)[0] == 'p' && Lower(e)[1] == 'n' && Lower(e)[2] == 'g';
    }
    HttpExtOfDotted("PHOTO", e, "png");
    assert "PHOTO" + "." + e == "PHOTO.PNG";
    var s := "PHOTO.PNG";
    assert 'g' !in s;
  }

  lemma WitnessBmp(opts: CompressionOptions)
    requires RequestedTargets(opts) == []
    ensures DownloadNameAsWritten("x.bmp", opts) == "c_x.bmp"
    ensures ContentType(ChooseRoute(HttpExt("x.bmp"), opts)) == "image/png"
    ensures ExtMime(HttpExt("c_x.bmp")) == Some("image/bmp")
  {
    LowerOfLowerCase("bmp");
    HttpExtOfDotted("x", "bmp", "bmp");
    assert "x" + "." + "bmp" == "x.bmp";
    assert "x.bmp"[1] == '.';
    assert HttpExt("x.bmp") == "bmp";
    assert !IsHeic("bmp") && "bmp" !in {"png", "jpg", "jpeg"};
    DownloadNameAsWrittenFallback("x.bmp", opts);
    HttpExtAfterPrefix("c_", "x.bmp");
    BmpLiterals();
  }

  lemma BmpLiterals()
    ensures "c_" + "x.bmp" == "c_x.bmp"
    ensures ExtMime("bmp") == Some("image/bmp")
  {
  }

  /** The download name with its extension always naming the bytes served: a HEIC
      upload or a requested conversion swaps the text after the last dot for the
      route's extension; an untouched PNG or JPEG keeps its name behind `c_`; any
      other upload, which is re-encoded as PNG, gets `c_` and `.png`. */
  function DownloadName(name: string, opts: CompressionOptions): (r: string)
    ensures ExtMime(HttpExt(r)) == Some(ContentType(ChooseRoute(HttpExt(name), opts)))
  {
    var ext := HttpExt(name);
    var route := ChooseRoute(ext, opts);
    var converted := IsHeic(ext) || RequestedTargets(opts) != [];
    var prefix := if converted then "" else "c_";
    RouteExtPlain(route);
    match LastIndex(name, '.')
    case Some(i) =>
      if !converted && ext in {"png", "jpg", "jpeg"} then
        HttpExtAfterPrefix("c_", name);
        KeptExtensionMime(ext, opts);
        "c_" + name
      else
        HttpExtOfAppended(prefix + name[..i], RouteExt(route));
        prefix + name[..i] + "." + RouteExt(route)
    case None =>
      HttpExtOfAppended(prefix + name, RouteExt(route));
      prefix + name + "." + RouteExt(route)
  }

  // ---------------------------------------------------------------------------
  // The multipart form.

  /** A field's content as the handler reads it: unreadable, or its bytes together
      with their text form. */
  datatype FieldBody = Unreadable | Body(bytes: seq<uint8>, text: string)

  /** One step of the multipart stream: a field, or a stream error. */
  datatype FormItem = Field(name: Option<string>, fileName: Option<string>, body: FieldBody) | StreamError

  /** What the handler accumulates: the upload's bytes, its name and the options. */
  datatype Upload = Upload(fileBytes: seq<uint8>, fileName: string, opts: CompressionOptions)

  /** The defaults before any field is read: lossy PNG, "50-80", oxipng on, no conversion. */
  const InitialUpload: Upload :=
    Upload([], "", CompressionOptions(true, "50-80", true, false, false, false, false, false, false, false))

  /** The fields the handler knows; a field without a name counts as unknown. */
  datatype FieldKind = FileField | QualityField | FormatField | OxipngField | LossyField | OtherField

  function KindOf(item: FormItem): FieldKind
    requires item.Field?
  {
    var name := item.name.GetOr("");
    if name == "file" then FileField
    else if name == "png_quality" then QualityField
    else if name == "output_format" then FormatField
    else if name == "oxipng" then OxipngField
    else if name == "png_lossy" then LossyField
    else OtherField
  }

  /** The items that answer 400: a stream error, or a known field that cannot be read.
      Unknown fields are never read, so they cannot fail. */
  predicate Rejects(item: FormItem) {
    item.StreamError? || (KindOf(item) != OtherField && item.body.Unreadable?)
  }

  /** The `output_format` values that request a conversion; any other value keeps
      the original format. */
  function ParseFormat(text: string): Option<Target> {
    if text == "webp" then Some(WebpTarget)
    else if text == "avif" then Some(AvifTarget)
    else if text == "jpeg" then Some(JpegTarget)
    else if text == "png" then Some(PngTarget)
    else if text == "tiff" then Some(TiffTarget)
    else if text == "bmp" then Some(BmpTarget)
    else if text == "ico" then Some(IcoTarget)
    else None
  }

  function FormatFlag(opts: CompressionOptions, t: Target): bool {
    match t
    case WebpTarget => opts.toWebp
    case AvifTarget => opts.toAvif
    case JpegTarget => opts.toJpeg
    case PngTarget => opts.toPng
    case TiffTarget => opts.toTiff
    case BmpTarget => opts.toBmp
    case IcoTarget => opts.toIco
  }

  /** Switches on one conversion flag. */
  function RequestFormat(opts: CompressionOptions, t: Target): (r: CompressionOptions)
    ensures forall u :: FormatFlag(r, u) <==> FormatFlag(opts, u) || u == t
    ensures r.pngLossy == opts.pngLossy && r.pngQuality == opts.pngQuality && r.oxipng == opts.oxipng
  {
    match t
    case WebpTarget => opts.(toWebp := true)
    case AvifTarget => opts.(toAvif := true)
    case JpegTarget => opts.(toJpeg := true)
    case PngTarget => opts.(toPng := true)
    case TiffTarget => opts.(toTiff := true)
    case BmpTarget => opts.(toBmp := true)
    case IcoTarget => opts.(toIco := true)
  }

  /** One field of the loop; `None` is the 400 answer. */
  function Accept(u: Upload, item: FormItem): (r: Option<Upload>)
    ensures r.None? <==> Rejects(item)
  {
    match item
    case StreamError => None
    case Field(_, fileName, body) =>
      var kind := KindOf(item);
      if kind == OtherField then Some(u)
      else
        match body
        case Unreadable => None
        case Body(bytes, text) =>
          match kind
          case FileField => Some(u.(fileBytes := bytes, fileName := fileName.GetOr("image")))
          case QualityField => Some(u.(opts := u.opts.(pngQuality := text)))
          case FormatField =>
            (match ParseFormat(text)
             case None => Some(u)
             case Some(t) => Some(u.(opts := RequestFormat(u.opts, t))))
          case OxipngField => Some(u.(opts := u.opts.(oxipng := text == "true")))
          case LossyField => Some(u.(opts := u.opts.(pngLossy := text == "true")))
          case OtherField => Some(u)
  }

  /** The whole loop over the stream, as a fold. */
  function ReadFormFrom(u: Upload, items: seq<FormItem>): Option<Upload>
    decreases |items|
  {
    if items == [] then Some(u)
    else
      match Accept(u, items[0])
      case None => None
      case Some(v) => ReadFormFrom(v, items[1..])
  }

  /** The field loop of the handler. */
  method ReadForm(items: seq<FormItem>) returns (r: Option<Upload>)
    ensures r == ReadFormFrom(InitialUpload, items)
    ensures r.None? <==> exists j :: 0 <= j < |items| && Rejects(items[j])
  {
    FormRejectedIff(InitialUpload, items);
    var u := InitialUpload;
    var i := 0;
    while i < |items|
      invariant 0 <= i <= |items|
      invariant ReadFormFrom(u, items[i..]) == ReadFormFrom(InitialUpload, items)
    {
      var next := Accept(u, items[i]);
      if next.None? {
        return None;
      }
      assert items[i..][1..] == items[i + 1..];
      u := next.value;
      i := i + 1;
    }
    return Some(u);
  }

  /** The form is refused exactly when one of its items is. */
  lemma {:induction false} FormRejectedIff(u: Upload, items: seq<FormItem>)
    ensures ReadFormFrom(u, items).None? <==> exists j :: 0 <= j < |items| && Rejects(items[j])
    decreases |items|
  {
    if items != [] && !Rejects(items[0]) {
      var v := Accept(u, items[0]).value;
      FormRejectedIff(v, items[1..]);
      if exists j :: 0 <= j < |items| && Rejects(items[j]) {
        var j :| 0 <= j < |items| && Rejects(items[j]);
        assert items[1..][j - 1] == items[j];
      }
      forall j | 0 <= j < |items| - 1 && Rejects(items[1..][j])
        ensures Rejects(items[j + 1])
      {
      }
    }
  }

  predicate AsksFor(item: FormItem, t: Target) {
    item.Field? && KindOf(item) == FormatField && item.body.Body? && ParseFormat(item.body.text) == Some(t)
  }

  /** What one accepted item does to a conversion flag. */
  lemma AcceptFormatFlag(u: Upload, item: FormItem, t: Target)
    requires Accept(u, item).Some?
    ensures FormatFlag(Accept(u, item).value.opts, t) <==> FormatFlag(u.opts, t) || AsksFor(item, t)
  {
    var v := Accept(u, item).value;
    if AsksFor(item, t) {
      assert v.opts == RequestFormat(u.opts, t);
    } else if item.Field? && KindOf(item) == FormatField && item.body.Body? {
      var format := ParseFormat(item.body.text);
      if format.Some? {
        assert v.opts == RequestFormat(u.opts, format.value);
      }
    } else {
      assert FormatFlag(v.opts, t) == FormatFlag(u.opts, t);
    }
  }

  /** Conversion flags only ever switch on: after the form, a format's flag is set
      exactly when it was set before or some `output_format` field names it. So
      several formats may be requested at once, and the dispatch order picks one. */
  lemma {:induction false} FormatFlagsAccumulate(u: Upload, items: seq<FormItem>, t: Target)
    requires ReadFormFrom(u, items).Some?
    ensures FormatFlag(ReadFormFrom(u, items).value.opts, t) <==>
      FormatFlag(u.opts, t) || exists j :: 0 <= j < |items| && AsksFor(items[j], t)
    decreases |items|
  {
    if items != [] {
      var v := Accept(u, items[0]).value;
      assert ReadFormFrom(u, items) == ReadFormFrom(v, items[1..]);
      FormatFlagsAccumulate(v, items[1..], t);
      AcceptFormatFlag(u, items[0], t);
      if exists j :: 0 <= j < |items| && AsksFor(items[j], t) {
        var j :| 0 <= j < |items| && AsksFor(items[j], t);
        if j > 0 {
          assert items[1..][j - 1] == items[j];
        }
      }
      forall j | 0 <= j < |items| - 1 && AsksFor(items[1..][j], t)
        ensures AsksFor(items[j + 1], t)
      {
      }
    }
  }

  /** The last field of the given kind, if any. */
  function LastField(items: seq<FormItem>, kind: FieldKind): (r: Option<FormItem>)
    ensures r.Some? ==> r.value in items && r.value.Field? && KindOf(r.value) == kind
    decreases |items|
  {
    if items == [] then None
    else
      var later := LastField(items[1..], kind);
      if later.Some? then later
      else if items[0].Field? && KindOf(items[0]) == kind then Some(items[0])
      else None
  }

  /** The value a single-valued field leaves in the upload. */
  predicate Holds(v: Upload, item: FormItem)
    requires item.Field? && item.body.Body?
  {
    match KindOf(item)
    case FileField => v.fileBytes == item.body.bytes && v.fileName == item.fileName.GetOr("image")
    case QualityField => v.opts.pngQuality == item.body.text
    case OxipngField => v.opts.oxipng == (item.body.text == "true")
    case LossyField => v.opts.pngLossy == (item.body.text == "true")
    case _ => true
  }

  /** What a kind of single-valued field sets, read off an upload. */
  function Slot(v: Upload, kind: FieldKind): (seq<uint8>, string, bool)
  {
    match kind
    case FileField => (v.fileBytes, v.fileName, false)
    case QualityField => ([], v.opts.pngQuality, false)
    case OxipngField => ([], "", v.opts.oxipng)
    case LossyField => ([], "", v.opts.pngLossy)
    case _ => ([], "", false)
  }

  /** One accepted item leaves every slot but its own kind's unchanged, and sets its own. */
  lemma AcceptSlot(u: Upload, item: FormItem, kind: FieldKind)
    requires Accept(u, item).Some? && kind != FormatField && kind != OtherField
    ensures var v := Accept(u, item).value;
      if item.Field? && KindOf(item) == kind then item.body.Body? && Holds(v, item)
      else Slot(v, kind) == Slot(u, kind)
  {
  }

  /** Every single-valued field is last-one-wins: the uploaded file and its name
      (`image` when the part has none), the quality range, and the two switches,
      which are on exactly when their text is `true`. Without such a field the
      value is kept. */
  lemma {:induction false} LastFieldWins(u: Upload, items: seq<FormItem>, kind: FieldKind)
    requires ReadFormFrom(u, items).Some? && kind != FormatField && kind != OtherField
    ensures var v := ReadFormFrom(u, items).value;
      var last := LastField(items, kind);
      (last.None? ==> Slot(v, kind) == Slot(u, kind)) &&
      (last.Some? ==> last.value.body.Body? && Holds(v, last.value))
    decreases |items|
  {
    if items != [] {
      var v := Accept(u, items[0]).value;
      assert ReadFormFrom(u, items) == ReadFormFrom(v, items[1..]);
      AcceptSlot(u, items[0], kind);
      LastFieldWins(v, items[1..], kind);
      var w := ReadFormFrom(v, items[1..]).value;
      if LastField(items[1..], kind).None? && items[0].Field? && KindOf(items[0]) == kind {
        SlotDecides(v, w, items[0]);
      }
    }
  }

  /** Two uploads with the same slot for an item's kind agree on that item's value. */
  lemma SlotDecides(v: Upload, w: Upload, item: FormItem)
    requires item.Field? && item.body.Body? && KindOf(item) != FormatField && KindOf(item) != OtherField
    requires Slot(w, KindOf(item)) == Slot(v, KindOf(item)) && Holds(v, item)
    ensures Holds(w, item)
  {
  }

  // ---------------------------------------------------------------------------
  // The response.

  /** The handler's answer: an error status, or 200 with the body and two headers. */
  datatype ApiResponse = Status(code: nat) | Attachment(body: seq<uint8>, contentType: string, disposition: string)

  /** What a header value may contain: no control character other than a tab, no DEL. */
  predicate HeaderValueValid(s: string) {
    forall i :: 0 <= i < |s| ==> (s[i] >= ' ' && s[i] as int != 0x7f) || s[i] == '\t'
  }

  function Disposition(name: string): string {
    "attachment; filename=\"" + name + "\""
  }

  /** `compress_api`: 400 for a refused form or a missing file, 500 when the
      dispatcher fails or the file name cannot go into a header, otherwise the
      compressed bytes with the route's content type, offered under the download
      name the handler computes. */
  method CompressApi(c: Codecs, items: seq<FormItem>) returns (resp: ApiResponse)
    ensures var form := ReadFormFrom(InitialUpload, items);
      (form.None? ==> resp == Status(400)) &&
      (form.Some? && form.value.fileBytes == [] ==> resp == Status(400)) &&
      (form.Some? && form.value.fileBytes != [] ==>
        var u := form.value;
        var out := CompressImage(c, u.fileBytes, HttpExt(u.fileName), u.opts);
        var disposition := Disposition(DownloadNameAsWritten(u.fileName, u.opts));
        (out.Err? ==> resp == Status(500)) &&
        (out.Ok? && !HeaderValueValid(disposition) ==> resp == Status(500)) &&
        (out.Ok? && HeaderValueValid(disposition) ==>
           resp == Attachment(out.value.bytes, out.value.contentType, disposition) &&
           resp.contentType == ContentType(ChooseRoute(HttpExt(u.fileName), u.opts))))
    ensures resp.Status? ==> resp.code in {400, 500}
  {
    var form := ReadForm(items);
    if form.None? {
      return Status(400);
    }
    var u := form.value;
    if u.fileBytes == [] {
      return Status(400);
    }
    var ext := HttpExt(u.fileName);
    var out := CompressImage(c, u.fileBytes, ext, u.opts);
    if out.Err? {
      return Status(500);
    }
    var disposition := Disposition(DownloadNameAsWritten(u.fileName, u.opts));
    if !HeaderValueValid(disposition) {
      return Status(500);
    }
    CompressImageFollowsRoute(c, u.fileBytes, ext, u.opts);
    resp := Attachment(out.value.bytes, out.value.contentType, disposition);
  }

  /** With the corrected download name, every successful answer's name announces
      the content type of the bytes served. */
  lemma DownloadNameAnnouncesServedType(c: Codecs, u: Upload)
    requires CompressImage(c, u.fileBytes, HttpExt(u.fileName), u.opts).Ok?
    ensures ExtMime(HttpExt(DownloadName(u.fileName, u.opts))) ==
      Some(CompressImage(c, u.fileBytes, HttpExt(u.fileName), u.opts).value.contentType)
  {
    CompressImageFollowsRoute(c, u.fileBytes, HttpExt(u.fileName), u.opts);
  }
}
