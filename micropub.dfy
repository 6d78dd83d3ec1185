/** The Micropub media endpoint of src/micropub.rs: who may upload, how an
    upload is classified and named, what is stored and what the client is
    told.  The token introspection result, the multipart stream's first
    field, the clock, the random characters and the S3 `put_object` call
    are parameters. */
module Micropub {
  import opened Common
  import opened Http
  import opened Site
  import Identifier
  import Decimal

  // ---------------------------------------------------------------------
  // Errors reported to Micropub clients.

  datatype MicropubError = MicropubError(error: string, errorDescription: Option<string>)

  /** `MicropubError::new`. */
  function NewError(err: string): (e: MicropubError)
    ensures e.error == err && e.errorDescription.None?
  {
    MicropubError(err, None)
  }

  /** `MicropubError::with_description`, the description already rendered
      by its `Display`. */
  function ErrorWithDescription(err: string, description: string): (e: MicropubError)
    ensures e.error == err && e.errorDescription == Some(description)
  {
    MicropubError(err, Some(description))
  }

  /** The serialised members: `error_description` is skipped when absent. */
  function ErrorJson(e: MicropubError): (members: seq<(string, string)>)
  {
    [("error", e.error)]
      + (if e.errorDescription.Some? then [("error_description", e.errorDescription.value)] else [])
  }

  /** The JSON object always has `error`, and has `error_description`
      exactly when there is a description. */
  lemma ErrorJsonMembers(e: MicropubError)
    ensures ErrorJson(e)[0] == ("error", e.error)
    ensures |ErrorJson(e)| == 2 <==> e.errorDescription.Some?
    ensures |ErrorJson(e)| == 1 <==> e.errorDescription.None?
    ensures e.errorDescription.Some? ==> ErrorJson(e)[1] == ("error_description", e.errorDescription.value)
  {
  }

  /** `MediaScope::scope`: the scope a token must carry to upload. */
  const MEDIA_SCOPE: string := "media"

  // ---------------------------------------------------------------------
  // Classification and naming.

  /** A media type `type/subtype` (section 5.1 of RFC 2045); the parser
      lower-cases both names. */
  datatype MediaType = MediaType(typ: string, subtype: string)

  function MediaTypeText(m: MediaType): string {
    m.typ + "/" + m.subtype
  }

  datatype Category = Photo | Audio | Video | File {
    /** The key prefix and URL segment of the category. */
    function Name(): string {
      match this
      case Photo => "photo"
      case Audio => "audio"
      case Video => "video"
      case File => "file"
    }
  }

  /** `f.rsplit('.').next()`: the text after the last `.`, or the whole
      name when it has none. */
  function AfterLastDot(f: string): (ext: string)
    ensures |ext| <= |f| && f[|f| - |ext|..] == ext
    ensures '.' !in ext
    ensures |ext| < |f| ==> f[|f| - |ext| - 1] == '.'
  {
    if f == [] || f[|f| - 1] == '.' then []
    else AfterLastDot(f[..|f| - 1]) + [f[|f| - 1]]
  }

  /** A name without any `.` is its own extension. */
  lemma AfterLastDotWithoutDot(f: string)
    requires '.' !in f
    ensures AfterLastDot(f) == f
  {
  }

  /** `filename.and_then(|f| f.rsplit('.').next())`. */
  function Ext(filename: Option<string>): (ext: Option<string>)
    ensures ext.Some? <==> filename.Some?
  {
    match filename
    case None => None
    case Some(f) => Some(AfterLastDot(f))
  }

  datatype Classification = Classification(category: Category, sep: char, suffix: Option<string>)

  /** The `match content_type.type_()` of `handle_upload`. */
  function Classify(typ: string, filename: Option<string>): (c: Classification)
    ensures c.category == Photo <==> typ == "image"
    ensures c.category == Audio <==> typ == "audio"
    ensures c.category == Video <==> typ == "video"
    ensures c.category != File ==> c.sep == '.' && c.suffix == Ext(filename)
    ensures c.category == File ==> c.sep == '/' && c.suffix == filename
    ensures c.suffix.Some? <==> filename.Some?
  {
    if typ == "image" then Classification(Photo, '.', Ext(filename))
    else if typ == "audio" then Classification(Audio, '.', Ext(filename))
    else if typ == "video" then Classification(Video, '.', Ext(filename))
    else Classification(File, '/', filename)
  }

  /** What follows the identifier in the object key. */
  function KeyTail(c: Classification): string {
    match c.suffix
    case None => ""
    case Some(s) => [c.sep] + s
  }

  /** The object key: the identifier, then the separator and the suffix
      when there is one. */
  function ObjectKey(id: string, c: Classification): (key: string)
    ensures |id| <= |key| && key[..|id|] == id
    ensures c.suffix.None? ==> key == id
    ensures c.suffix.Some? ==> |key| == |id| + 1 + |c.suffix.value| && key[|id|] == c.sep
    ensures c.suffix.Some? ==> key[|id| + 1..] == c.suffix.value
  {
    id + KeyTail(c)
  }

  /** The key in the bucket, `{classification}/{key}`. */
  function S3Key(category: Category, key: string): (s3Key: string)
    ensures SplitAtFirst(s3Key, '/') == Some((category.Name(), key))
  {
    var name := category.Name();
    assert forall i :: 0 <= i < |name| ==> name[i] != '/';
    SplitAtFirstAt(name + "/" + key, '/', |name|);
    assert (name + "/" + key)[..|name|] == name;
    assert (name + "/" + key)[|name| + 1..] == key;
    name + "/" + key
  }

  /** The publicly accessible URL: photos go through the resizing route
      at the configured default size. */
  function PublicUrl(site: SiteConfig, category: Category, key: string): (url: string)
    ensures |site.mediaUrl + "/media/"| <= |url| && url[..|site.mediaUrl + "/media/"|] == site.mediaUrl + "/media/"
    ensures |key| < |url| && url[|url| - |key|..] == key && url[|url| - |key| - 1] == '/'
  {
    if category == Photo then
      site.mediaUrl + "/media/photo/" + Decimal.DecimalString(site.defaultWidth) + "x"
        + Decimal.DecimalString(site.defaultHeight) + "/" + key
    else
      site.mediaUrl + "/media/" + category.Name() + "/" + key
  }

  /** The reference reader of a key: the identifier is everything up to the
      first `-` and the seven characters after it. */
  function SplitObjectKey(key: string): Option<(string, string)> {
    match SplitAtFirst(key, '-')
    case None => None
    case Some((time, rest)) =>
      if |rest| < Identifier.RANDOM_LENGTH then None
      else Some((time + "-" + rest[..Identifier.RANDOM_LENGTH], rest[Identifier.RANDOM_LENGTH..]))
  }

  /** The key determines the identifier it was built from and the tail
      after it, whatever the file name; so keys of different identifiers
      never collide. */
  lemma ObjectKeyRecoversId(now: int, randomPart: string, c: Classification)
    requires IsI64(now) && IsI64(now - Identifier.EPOCH)
    requires Identifier.IsRandomPart(randomPart)
    ensures SplitObjectKey(ObjectKey(Identifier.RandomId(now, randomPart), c))
      == Some((Identifier.RandomId(now, randomPart), KeyTail(c)))
  {
    var time := Identifier.TimePart(now - Identifier.EPOCH);
    var id := Identifier.RandomId(now, randomPart);
    var key := ObjectKey(id, c);
    Identifier.RandomIdSplits(now, randomPart);
    assert forall i :: 0 <= i < |time| ==> key[i] == id[i];
    SplitAtFirstAt(key, '-', |time|);
    assert key[..|time|] == time;
    assert key[|time| + 1..] == randomPart + KeyTail(c);
  }

  lemma DistinctIdsGiveDistinctKeys(
    now1: int, random1: string, c1: Classification,
    now2: int, random2: string, c2: Classification)
    requires IsI64(now1) && IsI64(now1 - Identifier.EPOCH) && Identifier.IsRandomPart(random1)
    requires IsI64(now2) && IsI64(now2 - Identifier.EPOCH) && Identifier.IsRandomPart(random2)
    requires Identifier.RandomId(now1, random1) != Identifier.RandomId(now2, random2)
    ensures ObjectKey(Identifier.RandomId(now1, random1), c1) != ObjectKey(Identifier.RandomId(now2, random2), c2)
  {
    ObjectKeyRecoversId(now1, random1, c1);
    ObjectKeyRecoversId(now2, random2, c2);
  }

  // ---------------------------------------------------------------------
  // The upload handler.

  /** What token introspection says about the caller. */
  datatype Introspection = Introspection(username: Option<string>, clientId: Option<string>)

  /** The first field of the multipart body, its body fully read. */
  datatype UploadField = UploadField(contentType: MediaType, filename: Option<string>, body: seq<Byte>)

  datatype PutObjectRequest = PutObjectRequest(
    bucket: string,
    key: string,
    body: seq<Byte>,
    metadata: map<string, string>,
    contentType: string)

  /** The metadata has only the keys `client-id`, `author` and `filename`,
      each present exactly when its source is, with its value. */
  predicate IsMetadataFor(m: map<string, string>, clientId: Option<string>, username: Option<string>, filename: Option<string>) {
    && m.Keys <= {"client-id", "author", "filename"}
    && ("client-id" in m <==> clientId.Some?)
    && (clientId.Some? ==> "client-id" in m && m["client-id"] == clientId.value)
    && ("author" in m <==> username.Some?)
    && (username.Some? ==> "author" in m && m["author"] == username.value)
    && ("filename" in m <==> filename.Some?)
    && (filename.Some? ==> "filename" in m && m["filename"] == filename.value)
  }

  /** The three conditional inserts into the metadata `HashMap`. */
  method BuildMetadata(clientId: Option<string>, username: Option<string>, filename: Option<string>)
    returns (metadata: map<string, string>)
    ensures IsMetadataFor(metadata, clientId, username, filename)
  {
    metadata := map[];
    if clientId.Some? {
      metadata := metadata["client-id" := clientId.value];
    }
    if username.Some? {
      metadata := metadata["author" := username.value];
    }
    if filename.Some? {
      metadata := metadata["filename" := filename.value];
    }
  }

  /** The key an accepted upload is stored under, within its category. */
  function UploadKey(field: UploadField, now: int, randomPart: string): string
    requires IsI64(now) && IsI64(now - Identifier.EPOCH)
    requires Identifier.IsRandomPart(randomPart)
  {
    ObjectKey(Identifier.RandomId(now, randomPart), Classify(field.contentType.typ, field.filename))
  }

  function UnauthorizedResponse(): HttpResponse {
    HttpResponse(401, [Header("content-type", "application/json")], Json(ErrorJson(NewError("unauthorized"))))
  }

  /** `handle_upload`: a caller other than the allowed user gets 401 before
      anything is read or stored; a request without a first field gets 400;
      otherwise the first field is stored once, giving 201 with its public
      URL, or 500 with the storage error. */
  method HandleUpload(
    auth: Introspection,
    firstField: Option<UploadField>,
    site: SiteConfig,
    now: int,
    randomPart: string,
    putObject: PutObjectRequest -> Result<(), string>)
    returns (resp: HttpResponse, issued: Option<PutObjectRequest>)
    requires IsI64(now) && IsI64(now - Identifier.EPOCH)
    requires Identifier.IsRandomPart(randomPart)
    ensures resp.status in {401, 400, 201, 500}
    ensures auth.username != Some(site.allowedUsername) ==> resp == UnauthorizedResponse() && issued.None?
    ensures auth.username == Some(site.allowedUsername) && firstField.None? ==>
      resp == HttpResponse(400, [], NoBody) && issued.None?
    ensures auth.username == Some(site.allowedUsername) && firstField.Some? ==>
      var field := firstField.value;
      var category := Classify(field.contentType.typ, field.filename).category;
      var key := UploadKey(field, now, randomPart);
      && issued.Some?
      && issued.value.bucket == site.s3Bucket
      && issued.value.key == S3Key(category, key)
      && issued.value.body == field.body
      && issued.value.contentType == MediaTypeText(field.contentType)
      && IsMetadataFor(issued.value.metadata, auth.clientId, auth.username, field.filename)
      && issued.value.metadata["author"] == site.allowedUsername
      && (putObject(issued.value).Ok? ==> resp == HttpResponse(201, [Header("location", PublicUrl(site, category, key))], NoBody))
      && (putObject(issued.value).Err? ==> resp == HttpResponse(500, [], Text(putObject(issued.value).error)))
    ensures resp.status == 201 <==> issued.Some? && putObject(issued.value).Ok?
  {
    if auth.username != Some(site.allowedUsername) {
      return UnauthorizedResponse(), None;
    }
    if firstField.None? {
      return HttpResponse(400, [], NoBody), None;
    }
    var field := firstField.value;
    var c := Classify(field.contentType.typ, field.filename);
    var key := ObjectKey(Identifier.RandomId(now, randomPart), c);
    var url := PublicUrl(site, c.category, key);
    var metadata := BuildMetadata(auth.clientId, auth.username, field.filename);
    var request := PutObjectRequest(site.s3Bucket, S3Key(c.category, key), field.body, metadata, MediaTypeText(field.contentType));
    issued := Some(request);
    match putObject(request) {
      case Ok(_) =>
        resp := HttpResponse(201, [Header("location", url)], NoBody);
      case Err(e) =>
        resp := HttpResponse(500, [], Text(e));
    }
  }
}
