# s3-media-endpoint, modelled in Dafny

This project models the core of a small Micropub media endpoint written in
Rust. The endpoint has two sides.

- **Upload side** (`src/micropub.rs`). An authorised user posts a multipart
  file. The endpoint classifies it by its media type. It names it with a
  fresh identifier: a base 32 time part, `-`, and seven random alphanumeric
  characters. It stores it in an S3 bucket with a small metadata map. It
  answers `201 Created` with the public URL of the file.
- **Delivery side** (`src/media.rs`). Requests for
  `/media/photo/{width}x{height}/{file}` fetch the stored image from
  upstream. The image is shrunk, never enlarged, and re-encoded in its own
  format. Every other `/media/{type}/{file}` request is passed through with
  the hop-by-hop `connection` header dropped.
- **Token verifier** (`src/oauth.rs`). It holds the access-token record, its
  whitespace-separated scope list, and the mapping from the introspection
  endpoint's status to a result. `src/main.rs` does not declare this file as
  a module, so it is not built into the server. It is modelled on its own.

The clock, the random characters, the S3 `put_object` call, the upstream
HTTP round trip, the image library and the `http` crate's table of reason
phrases are parameters of the model. The library calls and the put are
function-typed parameters, so each is a fixed function of its request.

Modules, one per file:

| file | module | models |
|---|---|---|
| `common.dfy` | `Common` | `Option`/`Result`, octets, `u32`/`i64` ranges, powers of two, splitting at the first occurrence of a character |
| `decimal.dfy` | `Decimal` | `u32` `Display` and `str::parse::<u32>` |
| `base32.dfy` | `Base32` | unpadded base 32 with the alphabet of section 6 of RFC 4648, and a reference decoder |
| `identifier.dfy` | `Identifier` | `random_id` |
| `http.dfy` | `Http` | headers, responses, and the response builder (a class) |
| `site.dfy` | `Site` | `SiteConfig` and the default photo size of `src/main.rs` |
| `micropub.dfy` | `Micropub` | errors, classification, naming, the metadata map, `handle_upload` |
| `media.dfy` | `Media` | the MIME table, the size rule, `scale_image`, `forward_response`, `serve_photo`, `serve_file` |
| `routing.dfy` | `Routing` | the two routes `configure` registers, and the link from an upload's URL back to its object |
| `oauth.dfy` | `OAuth` | `AccessToken`, `split_ascii_whitespace`, `validate`, `VerificationError` |

Imperative code stays imperative:
- `forward_response` is a method. It loops over the upstream headers into a
  `ResponseBuilder` object, and its loop invariant ties the builder's headers
  to the filtered prefix.
- `handle_upload`'s metadata map is built by a method with three conditional
  inserts.
- `serve_photo` sets its two headers on a builder.

Expression code is written as functions, with lemmas about them.

## Model

| member | source | states |
|---|---|---|
| `Identifier.RandomId` | src/micropub.rs:59-78 | the identifier is the time part, `-`, then the seven random characters; its length is the time part's plus eight |
| `Identifier.TwosComplement` | src/micropub.rs:63-67 | the 64-bit pattern of an `i64` is below 2^64; it equals the value for a non-negative offset and has the top bit set for a negative one |
| `Identifier.KeptOctets` | src/micropub.rs:64-67 | dropping `leading_zeros / 8` octets (`LeadingZeros`) of the eight `to_be_bytes` octets (`ToBeBytes`, `BigEndian`) of a 64-bit pattern keeps its shortest big-endian form: empty for zero, a nonzero first octet otherwise, all eight when the top bit is set, and it reads back as the pattern |
| `Identifier.TimeBytes` | src/micropub.rs:63-67 | at most eight octets are kept |
| `Identifier.TimePart` | src/micropub.rs:63-68 | the time part of any `i64` offset has at most 13 symbols |
| `Identifier.TimeBytesReadBack` | src/micropub.rs:63-67 | the kept octets are empty at offset 0; for a positive offset they start with a nonzero octet and read back as the offset; for a negative offset they are all eight octets of `to_be_bytes` and read back as offset + 2^64 |
| `Identifier.TimePartIsBase32` | src/micropub.rs:65-68 | the time part has ceil(8n/5) symbols for n kept octets, all from `A`-`Z`/`2`-`7`, and decodes back to the kept octets |
| `Identifier.EpochGivesEmptyTimePart` | src/micropub.rs:63-77 | at the epoch itself the identifier is `-` followed by the random part |
| `Identifier.OneOctetTimeBytes` | src/micropub.rs:63-67 | an offset between 1 and 255 keeps exactly its own octet |
| `Identifier.RandomIdSplits` | src/micropub.rs:71-77 | the identifier contains exactly one `-`, right after the time part, and splitting at the first `-` gives back the time part and the random part |
| `Identifier.TimePartNotTimeOrdered` | src/micropub.rs:63-68 | identifiers do not sort by time as text: offset 200 encodes as `Z?` and offset 208 as `2?`, which sorts first |
| `Base32.Encode` | src/micropub.rs:65-68 | the unpadded encoding has ceil(8n/5) symbols, all in the alphabet |
| `Base32.DecodeEncode` | src/micropub.rs:65-68 | decoding the encoding gives back exactly the input octets |
| `Base32.EncodeLengthTable` | src/micropub.rs:65-68 | 0 to 8 octets encode to 0, 2, 4, 5, 7, 8, 10, 12 or 13 symbols |
| `Base32.EncodeOneOctet` | src/micropub.rs:65-68 | one octet encodes to two symbols, the first standing for its high five bits |
| `Base32.BitsToBytesOfBytesToBits` | src/micropub.rs:65-68 | reading the octets as one bit string and regrouping it by eight gives back the octets |
| `Base32.SymbolBitsOfSymbols` | src/micropub.rs:65-68 | the five-bit groups the symbols stand for are the groups that chose them |
| `Decimal.DecimalString` | src/micropub.rs:111-118 | the rendered width or height is non-empty ASCII digits with no leading zero |
| `Decimal.DecimalStringValue` | src/micropub.rs:111-118 | the rendered digits denote the number |
| `Decimal.ParseDecimalString` | src/media.rs:29-38 | a `u32` rendered into a URL parses back as itself |
| `Decimal.ParseU32` | src/media.rs:29-38 | a text parses as a `u32` exactly when it is a non-empty run of ASCII digits, after at most one leading `+`, whose value is below 2^32; leading zeros are accepted (`0100` is 100); the number parsed is the value of the digits |
| `Http.WithoutHeader` | src/media.rs:115 | no header named `connection` survives the filter |
| `Http.WithoutHeaderAppend` | src/media.rs:115-117 | the filter distributes over concatenation, so the kept headers stay in order |
| `Http.WithoutHeaderMembers` | src/media.rs:115-117 | a header survives exactly when it was present and is not named `connection` |
| `Http.WithoutAbsentHeader` | src/media.rs:115-117 | with no `connection` header the headers pass unchanged, repeats included |
| `Http.ResponseBuilder.constructor` | src/media.rs:111 | a new builder carries the given status and no headers |
| `Http.ResponseBuilder.AppendHeader` | src/media.rs:116 | `.header` adds one header at the end and changes nothing else |
| `Http.ResponseBuilder.SetHeader` | src/media.rs:69-72 | `.set`/`.set_header` removes earlier values of the name and adds the new one |
| `Http.ResponseBuilder.Finish` | src/media.rs:74 | the finished response has the builder's status and headers and the given body |
| `Micropub.NewError` | src/micropub.rs:29-37 | the error carries the given code and no description |
| `Micropub.ErrorWithDescription` | src/micropub.rs:39-48 | the error carries the given code and the rendered description |
| `Micropub.ErrorJsonMembers` | src/micropub.rs:21-26 | the JSON has `error` first and has `error_description` exactly when there is a description |
| `Micropub.AfterLastDot` | src/micropub.rs:96 | the extension is the dot-free suffix after the last `.`, and the whole name when there is no `.` |
| `Micropub.AfterLastDotWithoutDot` | src/micropub.rs:96 | a name without `.` is its own extension |
| `Micropub.Ext` | src/micropub.rs:95-96 | there is an extension exactly when there is a file name |
| `Micropub.Classify` | src/micropub.rs:97-102 | `image`, `audio` and `video` (and only they) give photo, audio and video, joined by `.` with the extension; anything else gives file, joined by `/` with the whole file name |
| `Micropub.ObjectKey` | src/micropub.rs:105-108 | the key is the identifier alone when there is no suffix, and otherwise the identifier, the separator and the suffix |
| `Micropub.S3Key` | src/micropub.rs:142 | splitting the S3 key at its first `/` gives back the category name and the key |
| `Micropub.PublicUrl` | src/micropub.rs:110-121 | the URL starts with the media URL followed by `/media/`, and ends with `/` and the key |
| `Micropub.ObjectKeyRecoversId` | src/micropub.rs:105-108 | the object key determines its identifier and the tail after it |
| `Micropub.DistinctIdsGiveDistinctKeys` | src/micropub.rs:105-108 | different identifiers give different keys, whatever the file names |
| `Micropub.BuildMetadata` | src/micropub.rs:123-132 | the metadata has only `client-id`, `author` and `filename`, each present exactly when its claim or file name is, with that value |
| `Micropub.HandleUpload` | src/micropub.rs:80-160 | a wrong user gets 401 `unauthorized` with nothing stored; no field gives 400 with nothing stored; otherwise exactly one put of the bucket, `{category}/{key}`, the body, the metadata and the content type; 201 with `Location` set to the public URL exactly when the put succeeds, 500 with the error otherwise |
| `Media.MimeForImage` | src/media.rs:152-168 | the twelve listed formats get a type starting `image/`, and every other format gets `""` |
| `Media.MimeTableIsInjective` | src/media.rs:152-168 | the reverse lookup recovers each listed format from its type |
| `Media.ListedMimesDistinct` | src/media.rs:152-168 | no two listed formats share a type |
| `Media.TargetSize` | src/media.rs:131-143 | no new size exactly when a requested side is not below the natural one; otherwise the new size is strictly smaller than the natural size in both sides |
| `Media.ScaledSide` | src/media.rs:131-138 | the derived side of a shrunk image is below the natural size of that side |
| `Media.TargetKeepsAspect` | src/media.rs:131-138 | the fixed side is the requested width when it is the larger request, else the requested height; the other side is the floor of the aspect-ratio quotient |
| `Media.TargetMayExceedBox` | src/media.rs:131-138 | a 100x1000 image asked for at 50x10 becomes 50x500, outside the requested box |
| `Media.DefaultSizeShrinksOnlyWideImages` | src/media.rs:131-138 | at the default size 1000x0, a size is passed to `resize` only for images wider than 1000 pixels, and it has width 1000 |
| `Media.Rescaled` | src/media.rs:131-143 | with no computed size the decoded image is kept; otherwise the library's `resize` is called with the computed size |
| `Media.NoUpscale` | src/media.rs:140-143 | a request not below the natural size in both sides keeps the decoded image |
| `Media.ScaleImage` | src/media.rs:122-150 | the result is `Ok` exactly when format detection, decoding and encoding all succeed; the first step that fails decides the error; on success the output is written in the detected format and labelled with that format's type (`MimeForImage`) |
| `Media.ReadBody` | src/media.rs:61 | the body is read whole, or fails when reading fails or it exceeds the limit |
| `Media.Forwarded` | src/media.rs:106-120 | forwarding succeeds exactly when the body is read within 2 GiB; it then keeps the status and the body and has no `connection` header |
| `Media.ForwardedDropsOnlyConnection` | src/media.rs:106-120 | forwarding keeps the status and the body, removes every `connection` header and keeps every other header |
| `Media.ForwardResponse` | src/media.rs:106-120 | copying header by header into the builder gives exactly the filtered response |
| `Media.ServePhoto` | src/media.rs:24-75 | a missing or non-`u32` width or height (`ParamU32`), or a missing file name, gives 400 `Bad URI` before any request; otherwise the upstream URL is `media_url/photo/{file}` (`PhotoUpstreamUrl`); a failed upstream status is forwarded; a success gives the upstream status with only `cache-control: max-age=86400` and the output's content type (`PhotoResponse`) |
| `Media.ServeFile` | src/media.rs:77-104 | a missing parameter gives 400 `Bad URI`; otherwise `media_url/{type}/{file}` (`FileUpstreamUrl`) is fetched and forwarded |
| `Routing.StripPrefix` | src/media.rs:14-18 | a match leaves the text after the literal prefix |
| `Routing.DigitRun` | src/media.rs:14 | the run of digits is the longest all-digit prefix |
| `Routing.DigitsThen` | src/media.rs:14 | a `\d+` capture is a non-empty run of digits followed by the literal |
| `Routing.MatchPhoto` | src/media.rs:14-15 | a match splits the path into `/media/photo/`, digits, `x`, digits, `/` and a segment without `/` |
| `Routing.MatchPhotoOf` | src/media.rs:14-15 | every path of that shape matches, with its own parts |
| `Routing.MatchFile` | src/media.rs:18-20 | a match splits the path into `/media/`, a type without `/`, `/` and a non-empty rest |
| `Routing.MatchFileOf` | src/media.rs:18-20 | every path of that shape matches, with its own parts |
| `Routing.RouteOf` | src/media.rs:12-22 | the photo route wins whenever it matches; the file route is used only when it does not |
| `Routing.UnsizedPhotoIsPassedThrough` | src/media.rs:12-22 | `/media/photo/{file}` without a size goes to the pass-through handler with type `photo` |
| `Routing.OverlongSizeIsBadRequest` | src/media.rs:14-33 | a width of 2^32 or more matches the photo route but does not parse, so the handler gives `Bad URI` |
| `Routing.PhotoUrlRoundTrip` | src/micropub.rs:111-118 | a photo's public URL is the media URL plus a path the photo route matches at the default size, the handler parses that size back, and it fetches the stored object `photo/{key}` |
| `Routing.SlashedPhotoKeyMissesObject` | src/micropub.rs:111-118 | a photo key containing `/` gets a URL the pass-through route takes with type `photo`, and the URL fetched differs from the stored object's |
| `Routing.SlashedPhotoPathIsNotResized` | src/media.rs:12-22 | a photo path whose file part contains `/` goes to the pass-through route |
| `Routing.SlashedNameGivesSlashedKey` | src/micropub.rs:95-108 | an image uploaded as `a.b/c` is a photo stored under `{id}.b/c` |
| `Routing.SlashedPhotoUploadMissesObject` | src/micropub.rs:95-121 | for the upload `a.b/c`, the public URL is routed to the pass-through handler, which fetches a URL other than that of the stored object |
| `Routing.FileUrlRoundTrip` | src/micropub.rs:119-121 | other files get a URL the pass-through route matches with the category as type, and it fetches the stored object `{category}/{key}` |
| `OAuth.SkipWhitespaceSplits` | src/oauth.rs:26-28 | skipping drops a whitespace-only prefix |
| `OAuth.WordSplits` | src/oauth.rs:26-28 | a word is a whitespace-free prefix that stops at whitespace or the end |
| `OAuth.AccessToken.Scopes` | src/oauth.rs:26-28 | every scope of the token is non-empty and free of ASCII whitespace |
| `OAuth.SplitAsciiWhitespace` | src/oauth.rs:26-28 | every scope is non-empty and free of ASCII whitespace |
| `OAuth.SplitIsMaximalRuns` | src/oauth.rs:26-28 | the scope string is the scopes in order, separated by whitespace-only gaps, every inner gap non-empty: the scopes are the maximal non-whitespace runs |
| `OAuth.SplitJoin` | src/oauth.rs:26-28 | splitting scopes joined by single spaces gives back the same list |
| `OAuth.SplitJoinSplit` | src/oauth.rs:26-28 | re-joining the scopes with single spaces does not change them |
| `OAuth.SplitSkipsWhitespace` | src/oauth.rs:26-28 | leading whitespace does not change the scopes |
| `OAuth.SplitToken` | src/oauth.rs:26-28 | a token followed by whitespace or the end is split off whole |
| `OAuth.Validate` | src/oauth.rs:48-74 | the result is the decoded token exactly when the request was sent, the status is 2xx and the body decodes; 401 gives `Unauthenticated`; every other non-success status gives `InternalError` with the status's reason phrase, or `Unknown Error` when it has none |
| `OAuth.Display` | src/oauth.rs:77-83 | an error is displayed as `Unauthenticated` exactly when it is that variant; an internal error is displayed as `AuthServer Error`, without its reason |
| `OAuth.UnauthorizedDisplays` | src/oauth.rs:58-80 | a 401 from the endpoint is displayed as `Unauthenticated` |

## Left out

- The clock, the random generator, the S3 client, the upstream HTTP client, the image library and the reason-phrase table are parameters. So the `x-forwarded-for` header and the request-head copy of `request_from` are not modelled, nor is `no_decompress`.
- `Identifier.RandomId` requires that the clock reading and its offset from the epoch are `i64` values; `Utc::now().timestamp()` always is one.
- `Media.TargetSize`: the derived side is the exact floor of the integer quotient. The source computes it through an `f64` ratio, so for some sizes it can differ by one pixel. The final pixel size is decided inside the library's `resize`; only the size passed to it is modelled.
- `Media.ScaleImage`: decoding, resizing with the Catmull-Rom filter and encoding are abstract functions. A failure is tagged by the step that failed, not by the library's own `ImageError` value. `resize` keeps the aspect ratio and fits the image inside the size it is given, so the output can be a pixel smaller than the computed size; that is inside the abstract `resize`.
- `web::block`, async scheduling and concurrency are not modelled. Each request is one sequential call.
- `Micropub.HandleUpload` takes the first multipart field with its body already read. The `try_concat().unwrap()` panic on a failed body stream is not modelled.
- `Micropub.HandleUpload` renders the content type as `type/subtype` only; media-type parameters such as `charset` are not modelled.
- `Micropub.HandleUpload` receives the token introspection as input. The `RequireAuthorization` middleware and its check of the `media` scope (`MediaScope::scope`, the constant `Micropub.MEDIA_SCOPE`) are not part of this model.
- The JSON serialisation of `MicropubError` is its list of members. The JSON decoding of `AccessToken` is the `json` field of the reply. Serde itself is not modelled.
- `OAuth.AccessToken.Me` and `OAuth.AccessToken.ClientId` return the stored fields; being plain field reads, they carry no contract beyond their definitions.
- The request to the introspection endpoint (GET with the `Authorization` header) is the `sent` parameter of `OAuth.Validate`.
- `Routing.MatchPhoto`: the route's `\d` also matches non-ASCII decimal digits; the model accepts only ASCII digits. A path such as `/media/photo/١x2/a` therefore reaches the resizing handler in the source, which answers 400 `Bad URI` because the size does not parse as a `u32`. The model instead sends it to the pass-through route, which fetches `media_url/photo/١x2/a` from upstream.
- `Routing.PhotoUrlRoundTrip` holds only for photo keys without `/`. An image uploaded under a name such as `a.b/c` is stored under the key `{id}.b/c`. Its public URL does not match the resizing route and falls through to the pass-through route. That route fetches `media_url/photo/{width}x{height}/{id}.b/c`, not the stored object `photo/{id}.b/c` (`Routing.SlashedPhotoUploadMissesObject`).
- `Routing.PhotoUrlRoundTrip` and `Routing.FileUrlRoundTrip` treat everything after the media URL as the request path. The source builds the URL without escaping, so a `?` or `#` in a file name cuts the path a client requests; the model does not capture that.
- Headers are a sequence. Actix's `HeaderMap` is a map from a name to its values, both for the upstream response and for the builder. Iterating it groups each name's values, and it does not keep insertion order across names. The sequence stands for that iteration order, so the order claims of `Http.WithoutHeaderAppend`, `Http.WithoutAbsentHeader` and `Http.ResponseBuilder.AppendHeader` are about that order.
- Routing does not model percent-decoding of paths, the HEAD method of the file route, or the 404 of an unmatched path.
- Environment loading in `src/main.rs` is not part of this model, apart from the default photo size 1000x0.
- Upstream failures other than the ones named in `Media.Failure` are not modelled, and neither are the status codes actix assigns to those failures.
- Behaviour of the code that the model keeps:
  - the photo response carries only `cache-control` and `content-type`, not the stored object's headers or a cross-origin header;
  - the image is always decoded and re-encoded, even when it is not resized;
  - orientation is not normalised;
  - the computed size can lie outside the requested box (`Media.TargetMayExceedBox`);
  - identifiers are not ordered by time as text (`Identifier.TimePartNotTimeOrdered`).
