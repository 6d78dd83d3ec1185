/** The delivery side of src/media.rs: the photo route, which fetches the
    stored image from upstream and shrinks it, and the plain file route,
    which forwards the upstream response.  The upstream HTTP round trip and
    the image library are parameters. */
module Media {
  import opened Common
  import opened Http
  import Decimal

  // ---------------------------------------------------------------------
  // Image formats and their MIME types.

  /** `image::ImageFormat`; `Other` stands for every format of the library
      that the MIME table does not list. */
  datatype ImageFormat =
    | Png | Jpeg | Gif | Tiff | Ico | WebP | Bmp | Pnm | Tga | Dds | Hdr | Farbfeld
    | Other(name: string)

  /** `mime_for_image`. */
  function MimeForImage(fmt: ImageFormat): (mime: string)
    ensures mime == "" <==> fmt.Other?
    ensures !fmt.Other? ==> |mime| > 6 && mime[..6] == "image/"
  {
    match fmt
    case Png => "image/png"
    case Jpeg => "image/jpeg"
    case Gif => "image/gif"
    case Tiff => "image/tiff"
    case Ico => "image/vnd.microsoft.icon"
    case WebP => "image/webp"
    case Bmp => "image/bmp"
    case Pnm => "image/x-portable-anymap"
    case Tga => "image/x-tga"
    case Dds => "image/vnd.ms-dds"
    case Hdr => "image/vnd.radiance"
    case Farbfeld => "image/farbfeld"
    case Other(_) => ""
  }

  /** The reverse lookup of the MIME table. */
  function FormatForMime(mime: string): (fmt: Option<ImageFormat>)
    ensures fmt.Some? ==> !fmt.value.Other?
  {
    if mime == "image/png" then Some(Png)
    else if mime == "image/jpeg" then Some(Jpeg)
    else if mime == "image/gif" then Some(Gif)
    else if mime == "image/tiff" then Some(Tiff)
    else if mime == "image/vnd.microsoft.icon" then Some(Ico)
    else if mime == "image/webp" then Some(WebP)
    else if mime == "image/bmp" then Some(Bmp)
    else if mime == "image/x-portable-anymap" then Some(Pnm)
    else if mime == "image/x-tga" then Some(Tga)
    else if mime == "image/vnd.ms-dds" then Some(Dds)
    else if mime == "image/vnd.radiance" then Some(Hdr)
    else if mime == "image/farbfeld" then Some(Farbfeld)
    else None
  }

  /** Every listed format has its own MIME type: the reverse lookup
      recovers it, so no two listed formats share a type. */
  lemma MimeTableIsInjective(fmt: ImageFormat)
    requires !fmt.Other?
    ensures FormatForMime(MimeForImage(fmt)) == Some(fmt)
  {
  }

  lemma ListedMimesDistinct(f1: ImageFormat, f2: ImageFormat)
    requires !f1.Other? && !f2.Other? && f1 != f2
    ensures MimeForImage(f1) != MimeForImage(f2)
  {
    MimeTableIsInjective(f1);
    MimeTableIsInjective(f2);
  }

  // ---------------------------------------------------------------------
  // The size rule of `scale_image`.

  /** The size handed to `resize`, or `None` when the image is kept at its
      natural size.  The source computes the derived side through an `f64`
      ratio; here it is the exact floor of the same quotient. */
  function TargetSize(width: nat, height: nat, origWidth: nat, origHeight: nat): (r: Option<(nat, nat)>)
    ensures r.None? <==> width >= origWidth || height >= origHeight
    ensures r.Some? ==> r.value.0 < origWidth && r.value.1 < origHeight
  {
    if width < origWidth && height < origHeight then
      if width > height then
        Some((width, ScaledSide(width, origWidth, origHeight)))
      else
        Some((ScaledSide(height, origHeight, origWidth), height))
    else
      None
  }

  /** The side derived from the fixed one: `floor(a * other / side)`. */
  function ScaledSide(a: nat, side: nat, other: nat): (q: nat)
    requires a < side && 0 < other
    ensures q < other
  {
    FloorScaledBelow(a, side, other);
    a * other / side
  }

  /** `floor(a * other / side) < other` when `a < side`. */
  lemma FloorScaledBelow(a: nat, side: nat, other: nat)
    requires a < side && 0 < other
    ensures a * other / side < other
  {
    var q := a * other / side;
    assert q * side <= a * other;
    assert a * other < side * other by {
      assert (side - a) * other > 0;
    }
  }

  /** The side that is not fixed is the largest whole number of pixels that
      does not exceed the natural aspect ratio: width wins when the
      requested width is the larger request, height otherwise. */
  lemma TargetKeepsAspect(width: nat, height: nat, origWidth: nat, origHeight: nat)
    requires TargetSize(width, height, origWidth, origHeight).Some?
    ensures var (w, h) := TargetSize(width, height, origWidth, origHeight).value;
      && (width > height ==> w == width && h * origWidth <= width * origHeight < (h + 1) * origWidth)
      && (width <= height ==> h == height && w * origHeight <= height * origWidth < (w + 1) * origHeight)
  {
    var (w, h) := TargetSize(width, height, origWidth, origHeight).value;
    if width > height {
      assert h == width * origHeight / origWidth;
      assert (h + 1) * origWidth == h * origWidth + origWidth;
    } else {
      assert w == height * origWidth / origHeight;
      assert (w + 1) * origHeight == w * origHeight + origHeight;
    }
  }

  /** The computed size need not fit the requested box: a 100x1000 image
      asked for at 50x10 becomes 50x500. */
  lemma TargetMayExceedBox()
    ensures TargetSize(50, 10, 100, 1000) == Some((50, 500))
  {
  }

  /** With the default photo URL size 1000x0, an image wider than 1000
      pixels is brought to width 1000 at its aspect ratio; any other image
      keeps its natural size. */
  lemma DefaultSizeShrinksOnlyWideImages(origWidth: nat, origHeight: nat)
    ensures origWidth > 1000 && origHeight > 0 ==>
      TargetSize(1000, 0, origWidth, origHeight) == Some((1000, 1000 * origHeight / origWidth))
    ensures origWidth <= 1000 || origHeight == 0 ==> TargetSize(1000, 0, origWidth, origHeight).None?
  {
  }

  // ---------------------------------------------------------------------
  // `scale_image`, over an abstract image library.

  datatype Picture = Picture(width: nat, height: nat, pixels: seq<Byte>)

  /** `image::ImageError`, by the step that failed. */
  datatype ImageError = UnsupportedFormat | DecodingFailed | EncodingFailed

  /** The `image` crate calls `scale_image` makes: `guess_format`,
      `load_from_memory_with_format`, `resize` with the Catmull-Rom filter
      and `write_to`. */
  datatype ImageLib = ImageLib(
    guessFormat: seq<Byte> -> Option<ImageFormat>,
    load: (seq<Byte>, ImageFormat) -> Option<Picture>,
    resize: (Picture, nat, nat) -> Picture,
    writeTo: (Picture, ImageFormat) -> Option<seq<Byte>>)

  /** The picture `scale_image` writes out. */
  function Rescaled(img: Picture, width: nat, height: nat, lib: ImageLib): (out: Picture)
    ensures TargetSize(width, height, img.width, img.height).None? ==> out == img
    ensures TargetSize(width, height, img.width, img.height).Some? ==>
      var (w, h) := TargetSize(width, height, img.width, img.height).value;
      out == lib.resize(img, w, h)
  {
    match TargetSize(width, height, img.width, img.height)
    case None => img
    case Some((w, h)) => lib.resize(img, w, h)
  }

  /** A request that is not strictly smaller in both sides leaves the
      decoded picture as it is. */
  lemma NoUpscale(img: Picture, width: nat, height: nat, lib: ImageLib)
    requires width >= img.width || height >= img.height
    ensures Rescaled(img, width, height, lib) == img
  {
  }

  /** `scale_image`: the output is written in the detected input format
      and labelled with that format's MIME type. */
  function ScaleImage(data: seq<Byte>, width: nat, height: nat, lib: ImageLib): (r: Result<(string, seq<Byte>), ImageError>)
    ensures lib.guessFormat(data).None? ==> r == Err(UnsupportedFormat)
    ensures lib.guessFormat(data).Some? ==>
      var fmt := lib.guessFormat(data).value;
      && (lib.load(data, fmt).None? ==> r == Err(DecodingFailed))
      && (lib.load(data, fmt).Some? ==>
            var out := lib.writeTo(Rescaled(lib.load(data, fmt).value, width, height, lib), fmt);
            && (out.None? ==> r == Err(EncodingFailed))
            && (out.Some? ==> r == Ok((MimeForImage(fmt), out.value))))
    ensures r.Ok? <==>
      && lib.guessFormat(data).Some?
      && lib.load(data, lib.guessFormat(data).value).Some?
      && lib.writeTo(Rescaled(lib.load(data, lib.guessFormat(data).value).value, width, height, lib),
                     lib.guessFormat(data).value).Some?
    ensures r.Ok? ==>
      && lib.guessFormat(data).Some?
      && var fmt := lib.guessFormat(data).value;
      && r.value.0 == MimeForImage(fmt)
      && lib.load(data, fmt).Some?
      && lib.writeTo(Rescaled(lib.load(data, fmt).value, width, height, lib), fmt) == Some(r.value.1)
  {
    match lib.guessFormat(data)
    case None => Err(UnsupportedFormat)
    case Some(fmt) =>
      match lib.load(data, fmt)
      case None => Err(DecodingFailed)
      case Some(img) =>
        match lib.writeTo(Rescaled(img, width, height, lib), fmt)
        case None => Err(EncodingFailed)
        case Some(out) => Ok((MimeForImage(fmt), out))
  }

  // ---------------------------------------------------------------------
  // Handlers.

  /** The errors a handler returns instead of a response. */
  datatype Failure =
    /** `ErrorBadRequest`: status 400. */
    | BadRequest(message: string)
    /** `ErrorInternalServerError` around a failed image transform: status 500. */
    | InternalServerError(cause: ImageError)
    /** The upstream request could not be sent. */
    | SendFailed(reason: string)
    /** The upstream body could not be read. */
    | PayloadFailed(reason: string)
    /** The upstream body is longer than the limit. */
    | PayloadOverflow

  /** The upstream response as the HTTP client hands it over; the body is
      the result of reading the whole stream. */
  datatype UpstreamResponse = UpstreamResponse(status: nat, headers: seq<Header>, body: Result<seq<Byte>, string>)

  const BAD_URI: string := "Bad URI"
  const CONNECTION: string := "connection"
  /** 20 MiB: the most of a photo that is read for resizing. */
  const PHOTO_BODY_LIMIT: nat := 20971520
  /** 2 GiB: the most of a forwarded body that is read. */
  const FORWARD_BODY_LIMIT: nat := 2147483648
  /** `CacheControl(vec![MaxAge(86400)])`, rendered. */
  const PHOTO_CACHE_CONTROL: string := "max-age=86400"

  /** `.body().limit(limit)`: the whole body, or an error when reading fails
      or it is longer than the limit. */
  function ReadBody(body: Result<seq<Byte>, string>, limit: nat): (r: Result<seq<Byte>, Failure>)
    ensures r.Ok? <==> body.Ok? && |body.value| <= limit
    ensures r.Ok? ==> r.value == body.value
  {
    match body
    case Err(e) => Err(PayloadFailed(e))
    case Ok(data) => if |data| > limit then Err(PayloadOverflow) else Ok(data)
  }

  /** What `forward_response` produces from an upstream response. */
  function Forwarded(res: UpstreamResponse): (r: Result<HttpResponse, Failure>)
    ensures r.Ok? <==> res.body.Ok? && |res.body.value| <= FORWARD_BODY_LIMIT
    ensures r.Ok? ==> r.value.status == res.status && r.value.body == Binary(res.body.value)
    ensures r.Ok? ==> !HasHeader(r.value.headers, CONNECTION)
  {
    match ReadBody(res.body, FORWARD_BODY_LIMIT)
    case Err(f) => Err(f)
    case Ok(data) => Ok(HttpResponse(res.status, WithoutHeader(res.headers, CONNECTION), Binary(data)))
  }

  /** Forwarding keeps the status and the body, drops every `connection`
      header (hop-by-hop, section 6.1 of RFC 7230) and keeps every other
      header in order; a response without `connection` passes unchanged. */
  lemma ForwardedDropsOnlyConnection(res: UpstreamResponse, h: Header)
    requires Forwarded(res).Ok?
    ensures Forwarded(res).value.status == res.status
    ensures res.body.Ok? && Forwarded(res).value.body == Binary(res.body.value)
    ensures !HasHeader(Forwarded(res).value.headers, CONNECTION)
    ensures h in Forwarded(res).value.headers <==> h in res.headers && h.name != CONNECTION
    ensures !HasHeader(res.headers, CONNECTION) ==> Forwarded(res).value.headers == res.headers
  {
    WithoutHeaderMembers(res.headers, CONNECTION, h);
    if !HasHeader(res.headers, CONNECTION) {
      WithoutAbsentHeader(res.headers, CONNECTION);
    }
  }

  /** `forward_response`: copies the headers one at a time into a new
      response with the upstream status, skipping `connection`. */
  method ForwardResponse(res: UpstreamResponse) returns (r: Result<HttpResponse, Failure>)
    ensures r == Forwarded(res)
  {
    var builder := new ResponseBuilder(res.status);
    var i := 0;
    while i < |res.headers|
      invariant 0 <= i <= |res.headers|
      invariant builder.status == res.status
      invariant builder.headers == WithoutHeader(res.headers[..i], CONNECTION)
    {
      var h := res.headers[i];
      if h.name != CONNECTION {
        builder.AppendHeader(h.name, h.value);
      }
      assert res.headers[..i + 1][..i] == res.headers[..i];
      i := i + 1;
    }
    assert res.headers[..i] == res.headers;
    match ReadBody(res.body, FORWARD_BODY_LIMIT) {
      case Err(f) =>
        r := Err(f);
      case Ok(data) =>
        var resp := builder.Finish(Binary(data));
        r := Ok(resp);
    }
  }

  /** A path parameter read as `u32`; a missing one counts as malformed. */
  function ParamU32(param: Option<string>): Option<U32> {
    match param
    case None => None
    case Some(s) => Decimal.ParseU32(s)
  }

  function PhotoUpstreamUrl(mediaUrl: string, filename: string): string {
    mediaUrl + "/photo/" + filename
  }

  function FileUpstreamUrl(mediaUrl: string, mediaType: string, filename: string): string {
    mediaUrl + "/" + mediaType + "/" + filename
  }

  /** The response to a resized photo: the upstream status, a one-day cache
      lifetime and the MIME type of the output, and nothing else. */
  function PhotoResponse(status: nat, mime: string, data: seq<Byte>): HttpResponse {
    HttpResponse(status, [Header("cache-control", PHOTO_CACHE_CONTROL), Header("content-type", mime)], Binary(data))
  }

  /** `serve_photo` for `/media/photo/{width}x{height}/{filename}`. */
  method ServePhoto(
    width: Option<string>,
    height: Option<string>,
    filename: Option<string>,
    mediaUrl: string,
    send: string -> Result<UpstreamResponse, string>,
    lib: ImageLib)
    returns (r: Result<HttpResponse, Failure>, requested: Option<string>)
    ensures ParamU32(width).None? || ParamU32(height).None? || filename.None? ==>
      r == Err(BadRequest(BAD_URI)) && requested.None?
    ensures ParamU32(width).Some? && ParamU32(height).Some? && filename.Some? ==>
      var url := PhotoUpstreamUrl(mediaUrl, filename.value);
      && requested == Some(url)
      && match send(url)
        case Err(e) => r == Err(SendFailed(e))
        case Ok(res) =>
          if !IsSuccess(res.status) then r == Forwarded(res)
          else match ReadBody(res.body, PHOTO_BODY_LIMIT)
            case Err(f) => r == Err(f)
            case Ok(data) =>
              match ScaleImage(data, ParamU32(width).value, ParamU32(height).value, lib)
              case Err(e) => r == Err(InternalServerError(e))
              case Ok((mime, out)) => r == Ok(PhotoResponse(res.status, mime, out))
  {
    var w := ParamU32(width);
    if w.None? {
      return Err(BadRequest(BAD_URI)), None;
    }
    var h := ParamU32(height);
    if h.None? {
      return Err(BadRequest(BAD_URI)), None;
    }
    if filename.None? {
      return Err(BadRequest(BAD_URI)), None;
    }
    var url := PhotoUpstreamUrl(mediaUrl, filename.value);
    requested := Some(url);
    var sent := send(url);
    if sent.Err? {
      return Err(SendFailed(sent.error)), requested;
    }
    var res := sent.value;
    if !IsSuccess(res.status) {
      r := ForwardResponse(res);
      return;
    }
    var data := ReadBody(res.body, PHOTO_BODY_LIMIT);
    if data.Err? {
      return Err(data.error), requested;
    }
    var scaled := ScaleImage(data.value, w.value, h.value, lib);
    if scaled.Err? {
      return Err(InternalServerError(scaled.error)), requested;
    }
    var (mime, out) := scaled.value;
    var builder := new ResponseBuilder(res.status);
    builder.SetHeader("cache-control", PHOTO_CACHE_CONTROL);
    assert builder.headers == [Header("cache-control", PHOTO_CACHE_CONTROL)];
    builder.SetHeader("content-type", mime);
    assert WithoutHeader([Header("cache-control", PHOTO_CACHE_CONTROL)], "content-type")
      == [Header("cache-control", PHOTO_CACHE_CONTROL)];
    assert builder.headers == [Header("cache-control", PHOTO_CACHE_CONTROL), Header("content-type", mime)];
    var resp := builder.Finish(Binary(out));
    r := Ok(resp);
  }

  /** `serve_file` for `/media/{type}/{filename}`, GET and HEAD. */
  method ServeFile(
    mediaType: Option<string>,
    filename: Option<string>,
    mediaUrl: string,
    send: string -> Result<UpstreamResponse, string>)
    returns (r: Result<HttpResponse, Failure>, requested: Option<string>)
    ensures mediaType.None? || filename.None? ==> r == Err(BadRequest(BAD_URI)) && requested.None?
    ensures mediaType.Some? && filename.Some? ==>
      var url := FileUpstreamUrl(mediaUrl, mediaType.value, filename.value);
      && requested == Some(url)
      && match send(url)
        case Err(e) => r == Err(SendFailed(e))
        case Ok(res) => r == Forwarded(res)
  {
    if mediaType.None? || filename.None? {
      return Err(BadRequest(BAD_URI)), None;
    }
    var url := FileUpstreamUrl(mediaUrl, mediaType.value, filename.value);
    requested := Some(url);
    var sent := send(url);
    if sent.Err? {
      return Err(SendFailed(sent.error)), requested;
    }
    r := ForwardResponse(sent.value);
  }
}
