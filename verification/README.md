# rd_downloader_rust core, modelled in Dafny

This project models the pure core of a downloader for Rhythm Doctor levels.
The downloader walks the rhythm.cafe catalog API page by page to collect level
URLs. For each download it then picks a local filename that does not collide
with a file already on disk. The model covers three parts:

- **Pagination** (`src/api.rs`, and the older copy in `src/main.rs`).
  - `get_link_header` strictly strips a leading `<` and the exact trailing
    text `>; rel="next"` from the raw `link` header (`LinkHeader`).
  - `get_data` keeps each decoded record's `url` (`Api`).
  - The `get_urls` loop sends the first request with its query pairs. It then
    follows each page's continuation link and appends the pages' items in
    order (`Pagination`, `Api`, `LegacyMain`).
  - The server is a finite script of replies. The k-th reply answers the k-th
    request. A reply is either "no answer" (the send failed) or a raw `link`
    header plus a body. The body is a JSON array of elements, each reduced to
    its `id` and `url` fields, or it is not an array. Each version of
    `get_urls` decodes the elements with its own record type.
  - The fold returns the requests it sent as well as its result. This lets the
    model state that follow-up requests go to the extracted link with no query.
- **Filename resolution** (`src/download.rs`, `Filename`).
  - The URL path's last segment is used when its extension is exactly `rdzip`
    or `zip`.
  - Otherwise the first `filename` parameter of an `attachment`
    Content-Disposition is used, provided its charset is US-ASCII, ISO-8859-1,
    or the token `utf-8` / `UTF-8`. Its octets must be well-formed UTF-8
    (`Utf8`, a decoder with an encoder and proofs in both directions).
- **Collision avoidance** (`ensure_path`, `Collision`). The filesystem is a
  snapshot set of existing paths. A free path is kept. An occupied one becomes
  the first free `stem (i).ext` for `i = 2, 3, …`. The probe loop terminates
  because decimal formatting is injective (`Text.DecimalInjective`), so each
  probed name is a new member of a finite set.

The `get_link_header` of `src/main.rs` (lines 19-30) is the same code as the
one in `src/api.rs`, so one function, `LinkHeader.GetLinkHeader`, models both.

Three consequences of the code that the model makes explicit:

- An accepted charset does not mean the name is decoded in that charset. The
  octets are always decoded as UTF-8. So an ISO-8859-1 filename containing
  `0xE9` fails the whole lookup, and later parameters are never looked at
  (`Filename.Latin1FilenameFails`).
- The link parser does no validation between the brackets. A multi-link value
  that ends with the `next` relation yields everything between the first `<`
  and the final suffix (`LinkHeader.MultiLinkAccepted`).
- The two versions of `get_urls` decode pages differently. The older one
  needs a string `id` as well as a `url` in every element, the newer one only
  a `url`. A page whose elements lack an `id` fails the older call and
  succeeds in the newer one (`LegacyMain.IdlessPageSplits`).

Further facts about the code that the model follows:

- The charset test compares against four exact values. UTF-8 counts only as
  the tokens `utf-8` and `UTF-8`. The header parser upper-cases tokens it
  does not know and gives a plain `filename=` parameter the token `UTF-8`, so
  UTF-8 in any spelling arrives as `UTF-8` and is accepted.
- A header with no acceptable filename parameter is an error. There is no
  fallback name.
- `ensure_path` probes a snapshot of the filesystem. Nothing records the names
  that other downloads have already claimed.

## Model

| member | source | states |
|---|---|---|
| Text.StripPrefix | src/api.rs:13 | the rest is returned exactly when the text begins with the prefix, and prefix + rest is the text |
| Text.StripSuffix | src/api.rs:14 | the front is returned exactly when the text ends with the suffix, and front + suffix is the text |
| Text.Decimal | src/download.rs:83 | the decimal form of `n` is a non-empty string of ASCII digits with no leading zero (it starts with `0` only for `n = 0`) |
| Text.ParseDecimalOfDecimal | src/download.rs:83 | reading back the decimal form of `n` gives `n` |
| Text.DecimalInjective | src/download.rs:83 | different numbers format to different decimal strings |
| LinkHeader.ToStr | src/api.rs:10-11 | a header value becomes text exactly when every octet is tab or visible ASCII 32..126; the text has the same characters |
| LinkHeader.GetLinkHeader | src/api.rs:5-17 | a URL comes back exactly when the header is present, visible ASCII, starts with `<` and ends with `>; rel="next"`; then `<` + URL + suffix is the header text; otherwise the result is `None` and never an error |
| LinkHeader.LinkRoundTrip | src/api.rs:12-15 | for every visible text `u`, the header spelling `<u>; rel="next"` yields exactly `u` |
| LinkHeader.MultiLinkAccepted | src/api.rs:13-15 | a two-link value ending in `rel="next"` is not rejected: the URL is everything between the first `<` and the final suffix |
| LinkHeader.NoLeadingBracket | src/api.rs:13 | a value that is empty or does not start with `<` yields no continuation |
| LinkHeader.WrongSuffix | src/api.rs:14 | a value whose last 13 characters differ from `>; rel="next"` (another relation, trailing whitespace) yields no continuation |
| Utf8.DecodeEncode | src/download.rs:46 | every string's UTF-8 encoding is accepted by `from_utf8` and decodes back to that string |
| Utf8.EncodeDecode | src/download.rs:46 | octets that `from_utf8` accepts are exactly the encoding of the decoded text |
| Utf8.DecodeAscii | src/download.rs:46 | ASCII octets decode to the characters with the same codes |
| Utf8.Decode | src/download.rs:46 | a decoded text has at most as many characters as there are octets and at least a quarter as many (one to four octets per character) |
| Pagination.Follow | src/api.rs:47-61 | the first request is the given one; each later request was sent because the page before it was read and linked onward, and it goes to that link with no query; on success the pages form a complete walk and the result is their items in page order; on failure the last request was unanswered (network error) or its body did not decode, with no partial result |
| Pagination.FollowComplete | src/api.rs:50-59 | whenever the replies form a complete walk of `n` pages, the loop sends exactly `n` requests and returns all their items in page order |
| Pagination.FollowIgnoresLaterReplies | src/api.rs:50 | once a page carries no continuation the loop stops: replies after it change nothing |
| Pagination.GatheredCons | src/api.rs:58 | appending each page's items after the earlier ones equals the first page's items followed by the rest |
| Api.Queries | src/api.rs:35-38 | the first request's query starts with `_shape=array`, `_col=url`, `_size=max`; it holds `approval__gt=0` exactly when only verified levels are wanted, then as a fourth pair |
| Api.Urls | src/api.rs:24-26 | one URL per record, in order, each the record's `url` |
| Api.DecodeSiteData | src/api.rs:29-32 | elements decode as `SiteData` exactly when each has a string `url`, whatever its other fields; one record per element, keeping its `url` |
| Api.GetData | src/api.rs:19-27 | a body yields URLs exactly when it is a JSON array whose every element has a string `url`; then there is one URL per element, in order, each that element's `url`; any other body is a decode error |
| Api.GetUrls | src/api.rs:34-62 | the first request goes to the catalog endpoint with `Queries`; every later request has no query; a success returns all visited pages' URLs in page order |
| Api.GetUrlsComplete | src/api.rs:47-61 | for any number of pages, including a single empty one, a complete walk makes one request per page and returns the pages' URLs in page order |
| Api.GetUrlsFailure | src/api.rs:40-58 | if the walk reaches a page that is unanswered, or whose body is not an array of elements with a string `url`, the whole call fails |
| LegacyMain.Queries | src/main.rs:35-44 | always four pairs: first `approval__gt=0` when verified only, else the empty pair, then the three fixed pairs |
| LegacyMain.QueriesAgreeWhenVerified | src/main.rs:35-44 | when filtering, both versions send the same pairs in a different order; otherwise the older one sends an extra empty pair before the newer one's three |
| LegacyMain.DecodeThings | src/main.rs:13-17 | elements decode as `Thing` exactly when each has both a string `id` and a string `url`; one record per element, keeping both fields |
| LegacyMain.ReadThings | src/main.rs:49 | a body decodes exactly when it is a JSON array whose every element has a string `id` and a string `url`; the records keep both, in order; any other body is a decode error |
| LegacyMain.GetUrls | src/main.rs:32-59 | same walk as the newer version, with the four-pair query, keeping each record's `id` and `url` in page order |
| LegacyMain.AsSiteData | src/api.rs:29-32 | the bridge from the older record type to the newer one: one `SiteData` per `Thing`, in order, keeping its `url` and dropping its `id` |
| LegacyMain.UrlsAppend | src/main.rs:55 | the URLs of appended record lists are the appended URL lists |
| LegacyMain.ReadersAgree | src/api.rs:29-32 | for elements that are JSON objects: whatever page the older decoder accepts, the newer one accepts with the same URLs; with an `id` on every element they accept and reject the same pages |
| LegacyMain.IdlessPageSplits | src/main.rs:13-17 | a single page `[{"url": "u"}]` is a decode error for the older `get_urls` and `["u"]` for the newer one |
| LegacyMain.FollowAgrees | src/main.rs:48-58 | against the same replies, whenever the older walk succeeds the newer one returns its records' URLs; when every element of every page has an `id`, the two results are equal, failures included |
| LegacyMain.GetUrlsAgree | src/main.rs:32-59 | with the same filter flag, the newer `get_urls` returns the URLs of the older one's records whenever the older one succeeds, and exactly its result when every element has an `id` |
| Paths.Parent | src/download.rs:83 | the directory part is a prefix of the path that ends in `/` (or is empty), and no `/` follows it |
| Paths.FileName | src/download.rs:14-18 | the final segment has no `/` and, appended to the directory part, is the path; empty, `.` and `..` name no file |
| Paths.SplitAtDot | src/download.rs:71-78 | with an extension, the name is `stem.ext` with a non-empty stem and a dot-free extension; without one, the name is the stem and has no dot after its first character |
| Paths.SplitAtDotOf | src/download.rs:15 | `stem.ext` with a non-empty stem and a dot-free `ext` splits into exactly `stem` and `ext` |
| Paths.Stem | src/download.rs:71-74 | a stem exists exactly when the path names a file, and is non-empty; with an extension the file name is stem, dot, extension; without one it is the whole file name |
| Paths.Extension | src/download.rs:15 | an extension exists only for a path that names a file, and contains no dot; a file name with a dot after its first character always has one |
| Paths.Join | src/download.rs:103 | an absolute name replaces the folder; otherwise the result is the folder followed by the name, with a `/` between them exactly when the folder is non-empty and does not already end in `/` |
| Paths.FileNameOfJoin | src/download.rs:103 | a plain name joined onto the folder is the resulting path's final segment |
| Filename.DecodeFilename | src/download.rs:46 | the name is returned exactly when the octets are UTF-8 and then re-encodes to those octets; otherwise the error is invalid UTF-8 |
| Filename.AcceptedCharset | src/download.rs:41-44 | the charset test: US-ASCII, ISO-8859-1, or the exact tokens `utf-8` and `UTF-8`; every other charset is skipped |
| Filename.ScanParameters | src/download.rs:39-53 | fails with "no acceptable filename" exactly when no parameter is a filename with an accepted charset; otherwise the outcome is the decoding of the first such parameter |
| Filename.ScanParametersFirst | src/download.rs:39-47 | the first acceptable filename decides the outcome, so an invalid-UTF-8 first match fails even if a later parameter would succeed |
| Filename.GetFilenameFromHeaders | src/download.rs:24-54 | a missing header, an unparsable one or a non-`attachment` disposition fails; for an `attachment`, the result is the UTF-8 decoding of the first acceptable filename parameter, success or `InvalidUtf8`, and "no acceptable filename" when none qualifies |
| Filename.GetFilenameFromUrl | src/download.rs:13-22 | a name comes back exactly when the path's extension is `rdzip` or `zip` (case-sensitive); it ends the path, has no `/` and ends in `.zip` or `.rdzip` |
| Filename.UrlRule | src/download.rs:14-21 | for a last segment `stem.ext`, the segment is the filename exactly when `ext` is `rdzip` or `zip` (so `ZIP` gives none) |
| Filename.UrlRuleNoExtension | src/download.rs:15 | a last segment without a dot gives no filename |
| Filename.GetFilename | src/download.rs:56-64 | a name from the URL rule is returned as it is; when the rule gives none, the header lookup's result, success or error, is returned unchanged; a success is therefore the URL name or the first acceptable attachment filename |
| Filename.UrlNameWins | src/download.rs:56-60 | when the URL rule yields a name, every header gives the same result, that name |
| Filename.AttachmentExample | src/download.rs:56-64 | a URL path whose last segment has no dot, with `attachment; filename="a.zip"` (default charset `UTF-8`) resolves to `a.zip` |
| Filename.Latin1FilenameFails | src/download.rs:41-46 | an ISO-8859-1 filename with octet `0xE9` fails with invalid UTF-8, whatever parameters follow |
| Collision.CandidateInjective | src/download.rs:83 | different numbers give different alternative paths |
| Collision.CandidateSibling | src/download.rs:83 | the alternative `Candidate(path, stem, ext, i)` (`with_file_name`) stays in the directory of `path`, and its final segment is `stem (i).ext` |
| Collision.ProbedSize | src/download.rs:82-87 | after probing `2 .. i-1` the probed set has `i - 2` distinct paths, none numbered `i` or later |
| Collision.ProbeStep | src/download.rs:82-87 | each occupied probe adds a new existing path to the probed set, bounded by the number of existing paths (the loop's termination) |
| Collision.EnsurePath | src/download.rs:66-91 | a free path is returned unchanged; an occupied path without stem or without extension is an error; an occupied path with an extension always gets a result, and it is `stem (i).ext` in the same directory, with `i >= 2` the least number whose alternative does not exist; a success never names an existing path |
| Collision.FirstFreeUnique | src/download.rs:80-90 | the first free alternative is unique, so the probe's result is determined by the existing set |
| Collision.SongExample | src/download.rs:80-90 | `ensure_path` of `dl/song.zip` returns `dl/song (2).zip` when that file exists, and `dl/song (3).zip` when `dl/song (2).zip` exists too |
| Collision.ResolveTarget | src/download.rs:102-103 | a filename failure is passed on; with a filename, a free joined path is returned as it is, an occupied one with an extension gets its first free alternative, and only an occupied one without an extension fails; a chosen target never names an existing path |

## Left out

- HTTP transport (`reqwest` send) and JSON parsing are abstracted. A reply is either unanswered or delivered. A delivered body is a JSON array of elements or not. Each element is reduced to its `id` and `url`, each present as a string or not. The error context strings are dropped.
- Pagination.Follow: the server is a finite script of replies. A request past its end counts as a network error, so a server that links onward forever is not modelled: the Rust loop would not terminate.
- LinkHeader.GetLinkHeader: only the first `link` header value is modelled, as `headers().get` returns it. Repeated `link` headers are not.
- The Content-Disposition parser (`hyperx::ContentDisposition::parse_header`) is not modelled. The header arrives as absent, unparsable, or parsed. The parser's many registered charsets other than US-ASCII and ISO-8859-1 are collapsed into one `Registered(name)` case.
- Paths.FileName: uses a simplified `std::path`. The final segment is the text after the last `/`, and empty, `.` and `..` segments name no file. Rust would skip a trailing `/` or a `.` and use the segment before it.
- Collision.EnsurePath: `try_exists` I/O errors are not modelled. The filesystem is a snapshot set of paths.
- Collision.EnsurePath: the counter `i` is an `i32` in the source, so `i += 1` would panic or wrap after 2^31 - 2 occupied alternatives; the model's counter is unbounded.
- LegacyMain.ReadersAgree: page elements are modelled as JSON objects only. A derived `Deserialize` also reads a struct from a JSON array of its field values, so a page `[["i", "u"]]` decodes as `Vec<Thing>` but not as `Vec<SiteData>`, whose one field leaves an element over. On such pages the older decoder succeeds where the newer one fails, and ReadersAgree, FollowAgrees and GetUrlsAgree do not cover them.
- LegacyMain.GetUrlsAgree: both versions are run against one reply script, and the script does not look at the request. The two first requests carry the same filter, but in another order, and without the filter the older one adds an empty pair; the comparison assumes the server answers both alike.
- The check-then-create race between concurrent downloads is not modelled. The code has no claimed-name registry.
- `download_level`'s streaming, file creation and writes, the `content_length().unwrap()` panic, and the progress bars are I/O and observability. Only its filename and path choice (`Collision.ResolveTarget`) is modelled.
- `download_levels` is not modelled, because its point is concurrency through `buffer_unordered`. It prints each task's error and still returns `Ok`.
- `src/prefs.rs` is interactive prompting and directory creation. Its one rule, a thread count above zero, applies only to the unmodelled `download_levels`.
- The `main` function of `src/main.rs` only prints the count and unwraps, so it is not modelled.
