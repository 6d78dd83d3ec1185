/** The routes `configure` in src/media.rs registers, and how the public
    URL an upload is given leads back, through them, to the object the
    upload stored. */
module Routing {
  import opened Common
  import opened Decimal
  import opened Site
  import Micropub
  import Media
  import Identifier
  import Base32

  const PHOTO_PREFIX: string := "/media/photo/"
  const MEDIA_PREFIX: string := "/media/"

  /** Where a request path goes: the resizing handler with its three
      parameters, the pass-through handler with its two, or nowhere. */
  datatype Route =
    | ToPhoto(width: string, height: string, filename: string)
    | ToFile(typ: string, filename: string)
    | NotFound

  /** What follows `prefix` in `s`, when `s` starts with it. */
  function StripPrefix(prefix: string, s: string): (r: Option<string>)
    ensures r.Some? ==> s == prefix + r.value
  {
    if |prefix| <= |s| && s[..|prefix|] == prefix then
      assert s == s[..|prefix|] + s[|prefix|..];
      Some(s[|prefix|..])
    else None
  }

  lemma StripPrefixOf(prefix: string, r: string)
    ensures StripPrefix(prefix, prefix + r) == Some(r)
  {
    assert (prefix + r)[..|prefix|] == prefix && (prefix + r)[|prefix|..] == r;
  }

  /** The length of the run of ASCII digits `s` starts with. */
  function DigitRun(s: string): (n: nat)
    ensures n <= |s| && AllDigits(s[..n])
    ensures n == |s| || !IsAsciiDigit(s[n])
  {
    if s == [] || !IsAsciiDigit(s[0]) then 0
    else
      var n := 1 + DigitRun(s[1..]);
      assert s[..n] == [s[0]] + s[1..][..n - 1];
      n
  }

  /** A `\d+` capture followed by the literal `stop` (not a digit): the
      digits and what comes after `stop`. */
  function DigitsThen(s: string, stop: char): (r: Option<(string, string)>)
    ensures r.Some? ==> s == r.value.0 + [stop] + r.value.1 && |r.value.0| > 0 && AllDigits(r.value.0)
  {
    var n := DigitRun(s);
    if n == 0 || n == |s| || s[n] != stop then None
    else
      assert s == s[..n] + [stop] + s[n + 1..];
      Some((s[..n], s[n + 1..]))
  }

  lemma {:induction false} DigitRunOf(d: string, s: string)
    requires AllDigits(d)
    requires s == [] || !IsAsciiDigit(s[0])
    ensures DigitRun(d + s) == |d|
    decreases |d|
  {
    if d != [] {
      assert (d + s)[1..] == d[1..] + s;
      DigitRunOf(d[1..], s);
    } else {
      assert d + s == s;
    }
  }

  lemma DigitsThenOf(d: string, stop: char, rest: string)
    requires |d| > 0 && AllDigits(d) && !IsAsciiDigit(stop)
    ensures DigitsThen(d + [stop] + rest, stop) == Some((d, rest))
  {
    var s := d + [stop] + rest;
    assert s == d + ([stop] + rest);
    DigitRunOf(d, [stop] + rest);
    assert s[..|d|] == d && s[|d| + 1..] == rest;
  }

  /** A `{filename}` segment: non-empty, without `/`. */
  predicate IsSegment(s: string) {
    |s| > 0 && '/' !in s
  }

  /** A `{filename:.+}` tail: non-empty, without a line feed. */
  predicate IsTail(s: string) {
    |s| > 0 && '\n' !in s
  }

  /** `/media/photo/{width:\d+}x{height:\d+}/{filename}`. */
  function MatchPhoto(path: string): (r: Option<(string, string, string)>)
    ensures r.Some? ==>
      var (w, h, f) := r.value;
      && path == PHOTO_PREFIX + w + "x" + h + "/" + f
      && |w| > 0 && AllDigits(w) && |h| > 0 && AllDigits(h) && IsSegment(f)
  {
    match StripPrefix(PHOTO_PREFIX, path)
    case None => None
    case Some(size) =>
      match DigitsThen(size, 'x')
      case None => None
      case Some((w, afterW)) =>
        match DigitsThen(afterW, '/')
        case None => None
        case Some((h, f)) =>
          if IsSegment(f) then
            PhotoPathParts(path, size, afterW, w, h, f);
            Some((w, h, f))
          else None
  }

  lemma PhotoPathParts(path: string, size: string, afterW: string, w: string, h: string, f: string)
    requires path == PHOTO_PREFIX + size && size == w + ['x'] + afterW && afterW == h + ['/'] + f
    ensures path == PHOTO_PREFIX + w + "x" + h + "/" + f
  {
    assert "x" == ['x'] && "/" == ['/'];
  }

  /** `/media/{type}/{filename:.+}`. */
  function MatchFile(path: string): (r: Option<(string, string)>)
    ensures r.Some? ==>
      path == MEDIA_PREFIX + r.value.0 + "/" + r.value.1
      && IsSegment(r.value.0) && IsTail(r.value.1)
  {
    match StripPrefix(MEDIA_PREFIX, path)
    case None => None
    case Some(rest) =>
      match SplitAtFirst(rest, '/')
      case None => None
      case Some((t, f)) =>
        if t != [] && IsTail(f) then Some((t, f)) else None
  }

  /** The resources in the order they are registered: the photo route is
      tried first. */
  function RouteOf(path: string): (r: Route)
    ensures r.ToPhoto? <==> MatchPhoto(path).Some?
    ensures r.ToFile? <==> MatchPhoto(path).None? && MatchFile(path).Some?
  {
    match MatchPhoto(path)
    case Some((w, h, f)) => ToPhoto(w, h, f)
    case None =>
      match MatchFile(path)
      case Some((t, f)) => ToFile(t, f)
      case None => NotFound
  }

  /** Every path of the photo shape is matched, with its parts. */
  lemma MatchPhotoOf(w: string, h: string, f: string)
    requires |w| > 0 && AllDigits(w) && |h| > 0 && AllDigits(h) && IsSegment(f)
    ensures MatchPhoto(PHOTO_PREFIX + w + "x" + h + "/" + f) == Some((w, h, f))
  {
    var afterW := h + "/" + f;
    var size := w + "x" + afterW;
    assert PHOTO_PREFIX + w + "x" + h + "/" + f == PHOTO_PREFIX + size;
    StripPrefixOf(PHOTO_PREFIX, size);
    DigitsThenOf(w, 'x', afterW);
    DigitsThenOf(h, '/', f);
  }

  /** Every path of the pass-through shape is matched, with its parts. */
  lemma MatchFileOf(t: string, f: string)
    requires IsSegment(t) && IsTail(f)
    ensures MatchFile(MEDIA_PREFIX + t + "/" + f) == Some((t, f))
  {
    var path := MEDIA_PREFIX + t + "/" + f;
    var rest := t + "/" + f;
    assert path[..|MEDIA_PREFIX|] == MEDIA_PREFIX && path[|MEDIA_PREFIX|..] == rest;
    SplitAtFirstAt(rest, '/', |t|);
    assert rest[..|t|] == t && rest[|t| + 1..] == f;
  }

  /** A photo URL without a size segment is not resized: it goes to the
      pass-through handler with type `photo`. */
  lemma UnsizedPhotoIsPassedThrough(f: string)
    requires IsSegment(f) && IsTail(f)
    ensures RouteOf(PHOTO_PREFIX + f) == ToFile("photo", f)
  {
    var path := PHOTO_PREFIX + f;
    if MatchPhoto(path).Some? {
      assert false;
    }
    assert PHOTO_PREFIX + f == MEDIA_PREFIX + "photo" + "/" + f;
    MatchFileOf("photo", f);
  }

  /** The photo route accepts any run of digits, but the handler's `u32`
      parse rejects a width too large for it, so such a request reaches the
      handler and is answered "Bad URI" rather than not found. */
  lemma OverlongSizeIsBadRequest(width: nat, height: nat, f: string)
    requires width >= U32_LIMIT && IsSegment(f)
    ensures RouteOf(PHOTO_PREFIX + DecimalString(width) + "x" + DecimalString(height) + "/" + f)
      == ToPhoto(DecimalString(width), DecimalString(height), f)
    ensures ParseU32(DecimalString(width)) == None
  {
    MatchPhotoOf(DecimalString(width), DecimalString(height), f);
    DecimalStringValue(width);
    assert IsAsciiDigit(DecimalString(width)[0]);
  }

  /** The URL an uploaded photo is given is the site's media URL followed
      by a path the resizing route matches, at the configured default size,
      which the handler parses back; the object it fetches is the one the
      upload stored. */
  lemma PhotoUrlRoundTrip(site: SiteConfig, key: string)
    requires IsSegment(key)
    ensures var path := PHOTO_PREFIX + DecimalString(site.defaultWidth) + "x"
        + DecimalString(site.defaultHeight) + "/" + key;
      && Micropub.PublicUrl(site, Micropub.Photo, key) == site.mediaUrl + path
      && RouteOf(path) == ToPhoto(DecimalString(site.defaultWidth), DecimalString(site.defaultHeight), key)
    ensures ParseU32(DecimalString(site.defaultWidth)) == Some(site.defaultWidth)
    ensures ParseU32(DecimalString(site.defaultHeight)) == Some(site.defaultHeight)
    ensures Media.PhotoUpstreamUrl(site.mediaUrl, key)
      == site.mediaUrl + "/" + Micropub.S3Key(Micropub.Photo, key)
  {
    RouteOfPhotoPath(DecimalString(site.defaultWidth), DecimalString(site.defaultHeight), key);
    PhotoPublicUrl(site, key);
    ParseDecimalString(site.defaultWidth);
    ParseDecimalString(site.defaultHeight);
    PhotoUpstreamIsStored(site.mediaUrl, key);
  }

  lemma PhotoUpstreamIsStored(mediaUrl: string, key: string)
    ensures Media.PhotoUpstreamUrl(mediaUrl, key) == mediaUrl + "/" + Micropub.S3Key(Micropub.Photo, key)
  {
    assert Micropub.Category.Photo.Name() == "photo";
    assert mediaUrl + "/photo/" + key == mediaUrl + "/" + ("photo" + "/" + key);
  }

  lemma RouteOfPhotoPath(w: string, h: string, f: string)
    requires |w| > 0 && AllDigits(w) && |h| > 0 && AllDigits(h) && IsSegment(f)
    ensures RouteOf(PHOTO_PREFIX + w + "x" + h + "/" + f) == ToPhoto(w, h, f)
  {
    MatchPhotoOf(w, h, f);
  }

  lemma PhotoPublicUrl(site: SiteConfig, key: string)
    ensures Micropub.PublicUrl(site, Micropub.Photo, key)
      == site.mediaUrl + (PHOTO_PREFIX + DecimalString(site.defaultWidth) + "x"
        + DecimalString(site.defaultHeight) + "/" + key)
  {
    var w := DecimalString(site.defaultWidth);
    var h := DecimalString(site.defaultHeight);
    assert site.mediaUrl + "/media/photo/" + w == site.mediaUrl + (PHOTO_PREFIX + w);
    assert site.mediaUrl + "/media/photo/" + w + "x" == site.mediaUrl + (PHOTO_PREFIX + w + "x");
    assert site.mediaUrl + "/media/photo/" + w + "x" + h == site.mediaUrl + (PHOTO_PREFIX + w + "x" + h);
    assert site.mediaUrl + "/media/photo/" + w + "x" + h + "/" == site.mediaUrl + (PHOTO_PREFIX + w + "x" + h + "/");
  }

  /** A photo key with a `/` in it does not fit the resizing route's
      `{filename}` segment: its public URL falls through to the
      pass-through route with type `photo`, which fetches
      `media_url/photo/{width}x{height}/{key}` rather than the stored
      object `photo/{key}`. */
  lemma SlashedPhotoKeyMissesObject(site: SiteConfig, key: string)
    requires IsTail(key) && '/' in key
    ensures var w := DecimalString(site.defaultWidth);
      var h := DecimalString(site.defaultHeight);
      var path := PHOTO_PREFIX + w + "x" + h + "/" + key;
      && Micropub.PublicUrl(site, Micropub.Photo, key) == site.mediaUrl + path
      && RouteOf(path) == ToFile("photo", w + "x" + h + "/" + key)
      && Media.FileUpstreamUrl(site.mediaUrl, "photo", w + "x" + h + "/" + key)
        != site.mediaUrl + "/" + Micropub.S3Key(Micropub.Photo, key)
  {
    var w := DecimalString(site.defaultWidth);
    var h := DecimalString(site.defaultHeight);
    PhotoPublicUrl(site, key);
    SlashedPhotoPathIsNotResized(w, h, key);
    var tail := w + "x" + h + "/" + key;
    assert |Media.FileUpstreamUrl(site.mediaUrl, "photo", tail)| == |site.mediaUrl| + 7 + |tail|;
    assert |site.mediaUrl + "/" + Micropub.S3Key(Micropub.Photo, key)| == |site.mediaUrl| + 7 + |key|;
  }

  lemma SlashedPhotoPathIsNotResized(w: string, h: string, key: string)
    requires |w| > 0 && AllDigits(w) && |h| > 0 && AllDigits(h)
    requires IsTail(key) && '/' in key
    ensures RouteOf(PHOTO_PREFIX + w + "x" + h + "/" + key) == ToFile("photo", w + "x" + h + "/" + key)
  {
    var path := PHOTO_PREFIX + w + "x" + h + "/" + key;
    var size := w + "x" + h + "/" + key;
    SlashedPhotoPathMisses(w, h, key);
    SizedTail(w, h, key);
    assert path == MEDIA_PREFIX + "photo" + "/" + size;
    MatchFileOf("photo", size);
  }

  /** The photo route needs a `{filename}` without `/`. */
  lemma SlashedPhotoPathMisses(w: string, h: string, key: string)
    requires |w| > 0 && AllDigits(w) && |h| > 0 && AllDigits(h)
    requires '/' in key
    ensures MatchPhoto(PHOTO_PREFIX + w + "x" + h + "/" + key).None?
  {
    var path := PHOTO_PREFIX + w + "x" + h + "/" + key;
    var afterW := h + "/" + key;
    var size := w + "x" + afterW;
    assert path == PHOTO_PREFIX + size;
    StripPrefixOf(PHOTO_PREFIX, size);
    assert size == w + ['x'] + afterW;
    DigitsThenOf(w, 'x', afterW);
    assert afterW == h + ['/'] + key;
    DigitsThenOf(h, '/', key);
  }

  /** The size, `/` and a tail make a tail. */
  lemma SizedTail(w: string, h: string, key: string)
    requires AllDigits(w) && AllDigits(h) && IsTail(key)
    ensures IsTail(w + "x" + h + "/" + key)
  {
    var size := w + "x" + h + "/" + key;
    forall i | 0 <= i < |size|
      ensures size[i] != '\n'
    {
      if i < |w| {
        assert size[i] == w[i] && IsAsciiDigit(w[i]);
      } else if |w| < i < |w| + 1 + |h| {
        assert size[i] == h[i - |w| - 1] && IsAsciiDigit(h[i - |w| - 1]);
      } else if |w| + 1 + |h| < i {
        assert size[i] == key[i - |w| - 2 - |h|];
      }
    }
  }

  /** An image uploaded under the name `a.b/c` is stored under the photo
      key `{id}.b/c`, which is such a key. */
  lemma SlashedNameGivesSlashedKey(now: int, randomPart: string, subtype: string, body: seq<Byte>)
    requires IsI64(now) && IsI64(now - Identifier.EPOCH)
    requires Identifier.IsRandomPart(randomPart)
    ensures var field := Micropub.UploadField(Micropub.MediaType("image", subtype), Some("a.b/c"), body);
      var key := Micropub.UploadKey(field, now, randomPart);
      && Micropub.Classify("image", Some("a.b/c")).category == Micropub.Photo
      && key == Identifier.RandomId(now, randomPart) + ".b/c"
      && IsTail(key) && '/' in key
  {
    var id := Identifier.RandomId(now, randomPart);
    var c := Micropub.Classify("image", Some("a.b/c"));
    AfterLastDotOfSlashedName();
    assert c.suffix == Some("b/c") && c.sep == '.';
    assert Micropub.ObjectKey(id, c) == id + ".b/c";
    IdHasNoLineFeed(now, randomPart);
    SuffixedTail(id, ".b/c");
    assert (id + ".b/c")[|id| + 2] == '/';
  }

  /** The upload `a.b/c` end to end: the photo key it is stored under,
      the pass-through route its public URL takes, and the upstream URL
      fetched, which is not that of the stored object. */
  lemma SlashedPhotoUploadMissesObject(
    site: SiteConfig, now: int, randomPart: string, subtype: string, body: seq<Byte>)
    requires IsI64(now) && IsI64(now - Identifier.EPOCH)
    requires Identifier.IsRandomPart(randomPart)
    ensures var field := Micropub.UploadField(Micropub.MediaType("image", subtype), Some("a.b/c"), body);
      var key := Micropub.UploadKey(field, now, randomPart);
      var w := DecimalString(site.defaultWidth);
      var h := DecimalString(site.defaultHeight);
      var path := PHOTO_PREFIX + w + "x" + h + "/" + key;
      && key == Identifier.RandomId(now, randomPart) + ".b/c"
      && Micropub.PublicUrl(site, Micropub.Photo, key) == site.mediaUrl + path
      && RouteOf(path) == ToFile("photo", w + "x" + h + "/" + key)
      && Media.FileUpstreamUrl(site.mediaUrl, "photo", w + "x" + h + "/" + key)
        != site.mediaUrl + "/" + Micropub.S3Key(Micropub.Photo, key)
  {
    var field := Micropub.UploadField(Micropub.MediaType("image", subtype), Some("a.b/c"), body);
    SlashedNameGivesSlashedKey(now, randomPart, subtype, body);
    SlashedPhotoKeyMissesObject(site, Micropub.UploadKey(field, now, randomPart));
  }

  lemma AfterLastDotOfSlashedName()
    ensures Micropub.AfterLastDot("a.b/c") == "b/c"
  {
    var f := "a.b/c";
    assert Micropub.AfterLastDot(f[..2]) == "";
    assert Micropub.AfterLastDot(f[..3]) == "b";
    assert Micropub.AfterLastDot(f[..4]) == "b/";
  }

  lemma SuffixedTail(id: string, sfx: string)
    requires '\n' !in id && '\n' !in sfx && |sfx| > 0
    ensures IsTail(id + sfx)
  {
    forall i | 0 <= i < |id + sfx|
      ensures (id + sfx)[i] != '\n'
    {
      if i < |id| {
        assert (id + sfx)[i] == id[i];
      } else {
        assert (id + sfx)[i] == sfx[i - |id|];
      }
    }
  }

  /** An identifier is made of base 32 symbols, `-` and alphanumerics. */
  lemma IdHasNoLineFeed(now: int, randomPart: string)
    requires IsI64(now) && IsI64(now - Identifier.EPOCH)
    requires Identifier.IsRandomPart(randomPart)
    ensures '\n' !in Identifier.RandomId(now, randomPart)
  {
    var t := Identifier.TimePart(now - Identifier.EPOCH);
    Identifier.TimePartIsBase32(now - Identifier.EPOCH);
    var id := Identifier.RandomId(now, randomPart);
    assert id == t + "-" + randomPart;
    forall i | 0 <= i < |id|
      ensures id[i] != '\n'
    {
      if i < |t| {
        assert Base32.IsSymbol(id[i]);
      } else if i > |t| {
        assert Identifier.IsAlphanumeric(randomPart[i - |t| - 1]);
      }
    }
  }

  /** Audio, video and other files get a URL the pass-through route
      matches, with the category as its type, and it fetches the object the
      upload stored. */
  lemma FileUrlRoundTrip(site: SiteConfig, category: Micropub.Category, key: string)
    requires category != Micropub.Photo
    requires IsTail(key)
    ensures var path := MEDIA_PREFIX + category.Name() + "/" + key;
      && Micropub.PublicUrl(site, category, key) == site.mediaUrl + path
      && RouteOf(path) == ToFile(category.Name(), key)
    ensures Media.FileUpstreamUrl(site.mediaUrl, category.Name(), key)
      == site.mediaUrl + "/" + Micropub.S3Key(category, key)
  {
    RouteOfFilePath(category, key);
    FilePublicUrl(site, category, key);
  }

  lemma FilePublicUrl(site: SiteConfig, category: Micropub.Category, key: string)
    requires category != Micropub.Photo
    ensures Micropub.PublicUrl(site, category, key)
      == site.mediaUrl + (MEDIA_PREFIX + category.Name() + "/" + key)
  {
    var t := category.Name();
    assert site.mediaUrl + "/media/" + t == site.mediaUrl + (MEDIA_PREFIX + t);
    assert site.mediaUrl + "/media/" + t + "/" == site.mediaUrl + (MEDIA_PREFIX + t + "/");
  }

  lemma RouteOfFilePath(category: Micropub.Category, key: string)
    requires category != Micropub.Photo
    requires IsTail(key)
    ensures RouteOf(MEDIA_PREFIX + category.Name() + "/" + key) == ToFile(category.Name(), key)
  {
    var path := MEDIA_PREFIX + category.Name() + "/" + key;
    assert StripPrefix(PHOTO_PREFIX, path).None? by {
      assert path[7] == category.Name()[0];
    }
    MatchFileOf(category.Name(), key);
  }
}
