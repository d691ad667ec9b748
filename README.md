# A verified model of simple-http-server

simple-http-server is a small HTTP/1.1 file server written in Kotlin. It
answers `GET` requests over plain sockets. The repository holds two
iterations of it:

- **The first iteration** (`src/main/kotlin/HttpServer.kt`) serves one
  file, read once and decoded to text, to every `GET`. It upper-cases
  each token of the request line. A `GET` gets `200 Spoko` with a
  `Content-Length` header. Any other method gets `405 Nope` with
  `Accept: GET`. After the body it writes one more CRLF.
- **The packaged iteration** (`net/karolnowak/simplehttpserver`) has
  several parts:
  - a request line split into three tokens, a target check and a
    `Range` header (`request/`);
  - a header block read line by line into a map (`common/Headers.kt`);
  - content providers for a single file or for a directory
    (`ContentProvider.kt`);
  - contents: a file's bytes with the MIME type that `file -I` reports, a
    sorted HTML directory listing, and no content (`Content.kt`);
  - a response that writes a status line, `Content-Length`,
    `Content-Type`, an optional `Content-Range`, `Accept-Ranges` and
    `Connection` for a success, and `Content-Length: 0` with
    `Allow: GET` for a failure (`response/Response.kt`).
  - `HttpServer.kt` itself still carries an older `respondTo` and byte
    `Response` of its own: `405`, then `404`, then `200`.

The model has one Dafny module per source file, plus modules for the
Kotlin standard-library behaviour the code relies on:

- `Results` holds `Option` and `Result`.
- `Numbers` holds `Int`, `dec`, `toString` and `toInt`.
- `Utf8` holds `toByteArray`.
- `Text` holds `trim`, `split`, `joinToString`, `endsWith`, `uppercase`,
  `trimMargin` and line splitting.
- `Framing` reads an HTTP head back into lines and header fields.

The model is written in two forms:

- `Headers.toMap` is a `while` loop over the lines. It is a method whose
  loop invariant ties it to a functional specification.
- Everything else in the source is expressions. It is modelled as
  datatypes, functions and lemmas.

Several operations are proved to round-trip. A serialised response head
is read back by the model's own header parser, so the header map a client
would see is stated exactly.

The `Range` handling follows the code, not section 14 of RFC 9110:

- `bytes=` is optional.
- `-N` means bytes `0..N`, not the last N bytes.
- A missing end runs to `length - 1`.
- A spec with no `-` at all fails.

## Model

| member | source | states |
|---|---|---|
| Ranges.NoRange | src/main/kotlin/net/karolnowak/simplehttpserver/request/Range.kt:23 | `NoRange()` carries no header |
| Ranges.MultipleRanges | src/main/kotlin/net/karolnowak/simplehttpserver/request/Range.kt:8 | multiple ranges exactly when a header is present and holds a comma |
| Ranges.AsIntRange | src/main/kotlin/net/karolnowak/simplehttpserver/request/Range.kt:10-18 | no header gives `0..dec(length)`; the empty spec fails exactly when the spec after `bytes=` is empty; a missing second part fails exactly when the spec has no dash and neither starts nor ends with one; a leading dash starts at 0; a trailing dash ends at `dec(length)` |
| Ranges.NoRangeIsWhole | src/main/kotlin/net/karolnowak/simplehttpserver/request/Range.kt:13 | the absent header covers the whole content, is not multiple and has the empty response header |
| Ranges.PrefixOptional | src/main/kotlin/net/karolnowak/simplehttpserver/request/Range.kt:11 | a spec means the same with and without the `bytes=` prefix |
| Ranges.LeadingDash | src/main/kotlin/net/karolnowak/simplehttpserver/request/Range.kt:14 | `bytes=-B` is `0..N` for every bound text `B` that `toInt` reads as `N`, signs and leading zeros included |
| Ranges.TrailingDash | src/main/kotlin/net/karolnowak/simplehttpserver/request/Range.kt:15 | `bytes=B-` is `N..dec(length)` for every bound text `B` not starting with `-` that `toInt` reads as `N` |
| Ranges.TwoEnds | src/main/kotlin/net/karolnowak/simplehttpserver/request/Range.kt:16 | `bytes=A-B`, whatever further `-`-separated parts follow, is `A..B` |
| Ranges.LastBranch | src/main/kotlin/net/karolnowak/simplehttpserver/request/Range.kt:16 | a spec with no leading or trailing dash is the interval of its first two parts read as integers |
| Ranges.EmptySpecFails | src/main/kotlin/net/karolnowak/simplehttpserver/request/Range.kt:14-15 | `bytes=` and the empty header both fail: `last()` of the empty spec throws |
| Ranges.LeadingNotANumber | src/main/kotlin/net/karolnowak/simplehttpserver/request/Range.kt:14 | `bytes=-B` fails for every bound text `B` that `toInt` refuses |
| Ranges.TrailingNotANumber | src/main/kotlin/net/karolnowak/simplehttpserver/request/Range.kt:15 | `bytes=B-` fails for every bound text `B` not starting with `-` that `toInt` refuses |
| Ranges.LastNotANumber | src/main/kotlin/net/karolnowak/simplehttpserver/request/Range.kt:16 | a spec with no leading or trailing dash fails when `toInt` refuses either of its first two parts |
| Ranges.AsResponseHeader | src/main/kotlin/net/karolnowak/simplehttpserver/request/Range.kt:20-21 | no header gives `NO_HEADER`; with a header it fails exactly when the interval does |
| Ranges.ResponseHeaderFormat | src/main/kotlin/net/karolnowak/simplehttpserver/request/Range.kt:20-21 | the header line is `Content-Range: bytes FIRST-LAST/LENGTH` and a CRLF |
| Ranges.IntervalDash | src/main/kotlin/net/karolnowak/simplehttpserver/request/Range.kt:21 | replacing `..` with `-` in the text of `a..b` gives `a-b` |
| Requests.IsValid | src/main/kotlin/net/karolnowak/simplehttpserver/request/Request.kt:6 | a request is valid exactly when its target holds no `..` and its upper-cased target holds no `%2E%2E` |
| Requests.DotDotInvalid | src/main/kotlin/net/karolnowak/simplehttpserver/request/Request.kt:6 | any `..` in the target makes the request invalid |
| Requests.EncodedDotDotInvalid | src/main/kotlin/net/karolnowak/simplehttpserver/request/Request.kt:6 | any case variant of `%2e%2e` in the target makes the request invalid |
| Requests.EncodedDotDotUpper | src/main/kotlin/net/karolnowak/simplehttpserver/request/Request.kt:6 | six characters upper-case to `%2E%2E` exactly when they are a case variant of it |
| Requests.MixedCaseExample | src/main/kotlin/net/karolnowak/simplehttpserver/request/Request.kt:6 | `/%2e%2E/secret` is refused |
| Requests.IsValidOnlyTarget | src/main/kotlin/net/karolnowak/simplehttpserver/request/Request.kt:6 | validity depends on the target alone |
| Requests.GetRange | src/main/kotlin/net/karolnowak/simplehttpserver/request/Request.kt:7 | the range carries the value of the `Range` header, or none |
| Requests.AbsentRange | src/main/kotlin/net/karolnowak/simplehttpserver/request/Request.kt:7 | without a `Range` header the range is `NoRange()`, not multiple, and covers the whole content |
| HeaderFields.Headers.Get | src/main/kotlin/net/karolnowak/simplehttpserver/common/Headers.kt:18 | a value exactly for names in the map, and it is the mapped value |
| HeaderFields.Scan | src/main/kotlin/net/karolnowak/simplehttpserver/common/Headers.kt:11-15 | a success consumed up to and including an empty line; running out of lines happens only when every remaining line is a field; a colon-free line fails |
| HeaderFields.ParseFields | src/main/kotlin/net/karolnowak/simplehttpserver/common/Headers.kt:9-16 | a successful parse consumed the lines up to and including an empty line |
| HeaderFields.ParseHeaders | src/main/kotlin/net/karolnowak/simplehttpserver/common/Headers.kt:9-16 | the `while` loop computes exactly the functional parse `ParseFields` |
| HeaderFields.ParseStopsAtFirstEmpty | src/main/kotlin/net/karolnowak/simplehttpserver/common/Headers.kt:13-14 | lines of fields up to the first empty line give the map of those fields and consume one line past them |
| HeaderFields.LastLineWins | src/main/kotlin/net/karolnowak/simplehttpserver/common/Headers.kt:14 | a repeated name maps to the value of its last line |
| HeaderFields.AbsentName | src/main/kotlin/net/karolnowak/simplehttpserver/common/Headers.kt:14 | a name on no line is not in the map |
| HeaderFields.ParseFailsWithoutColon | src/main/kotlin/net/karolnowak/simplehttpserver/common/Headers.kt:14 | the first non-empty colon-free line fails the parse (`it[1]` out of bounds) |
| HeaderFields.ParseFailsAtEndOfInput | src/main/kotlin/net/karolnowak/simplehttpserver/common/Headers.kt:12-13 | input that ends before an empty line fails (`readLine` returns null) |
| HeaderFields.ParsedLookup | src/main/kotlin/net/karolnowak/simplehttpserver/common/Headers.kt:14-18 | `get` of a name returns the trimmed value of its last line before the empty line |
| HeaderFields.ParsedLookupAbsent | src/main/kotlin/net/karolnowak/simplehttpserver/common/Headers.kt:14-18 | `get` of a name on no line returns null |
| HeaderFields.HostWithPort | src/main/kotlin/net/karolnowak/simplehttpserver/common/Headers.kt:14 | `Host: h:port` keeps only `h`: the value stops at the second colon |
| Contents.FileName | src/main/kotlin/net/karolnowak/simplehttpserver/Content.kt:56 | a path's file name holds no `/`; with `FileNameIsSuffix` it is all the text after the last `/` |
| Contents.FileNameIsSuffix | src/main/kotlin/net/karolnowak/simplehttpserver/Content.kt:56 | a path ends with its file name, which is the whole path or is preceded by a `/`: it is all the text after the last `/` |
| Contents.EntryTotal | src/main/kotlin/net/karolnowak/simplehttpserver/Content.kt:54-56 | the listing order is total |
| Contents.EntryTransitive | src/main/kotlin/net/karolnowak/simplehttpserver/Content.kt:54-56 | the listing order is transitive |
| Contents.SortEntries | src/main/kotlin/net/karolnowak/simplehttpserver/Content.kt:54-56 | the sorted listing is a permutation of the entries |
| Contents.SortEntriesSorted | src/main/kotlin/net/karolnowak/simplehttpserver/Content.kt:54-56 | the sorted listing is sorted and a permutation of the entries |
| Contents.ListingOrder | src/main/kotlin/net/karolnowak/simplehttpserver/Content.kt:54-56 | in the sorted listing directories come first, and within each kind file names ascend |
| Contents.ItemsNoLineBreak | src/main/kotlin/net/karolnowak/simplehttpserver/Content.kt:66 | the joined list items hold no line break when no file name does |
| Contents.ListingPage | src/main/kotlin/net/karolnowak/simplehttpserver/Content.kt:62-69 | after `trimMargin` the listing is the doctype, `<body>`, `<ul>`, the items of the sorted entries, `</ul>` and `</body>`, each on its own line with the indentation after the margin kept |
| Contents.ItemsCons | src/main/kotlin/net/karolnowak/simplehttpserver/Content.kt:66-72 | the items are each entry's link, in order, with no separator |
| Contents.PageTrim | src/main/kotlin/net/karolnowak/simplehttpserver/Content.kt:63-69 | `trimMargin` drops the blank last line and the margin up to each bar |
| Contents.ListingBytes | src/main/kotlin/net/karolnowak/simplehttpserver/Content.kt:58-60 | a listing's bytes are the UTF-8 of that page, its length counts them, and its type is `text/html; charset=UTF-8` |
| Contents.ParseFileOutput | src/main/kotlin/net/karolnowak/simplehttpserver/Content.kt:44-45 | the type is the trimmed second `:`-part of the output; there is none when there is no second part or that part is blank |
| Contents.FileOutputType | src/main/kotlin/net/karolnowak/simplehttpserver/Content.kt:44 | `path: type` output of a colon-free path gives `type` |
| Contents.ColonInPath | src/main/kotlin/net/karolnowak/simplehttpserver/Content.kt:44 | for a path holding a colon, the part after that colon is taken as the type |
| Contents.ExecuteFileCommand | src/main/kotlin/net/karolnowak/simplehttpserver/Content.kt:36-50 | a type exactly when the command exited with 0 and its output parses |
| Contents.GetContentType | src/main/kotlin/net/karolnowak/simplehttpserver/Content.kt:28-34 | a missing path fails; otherwise the type is never empty, and it is the command's type or `binary/octet-stream` when the command gives none |
| Contents.FallbackIff | src/main/kotlin/net/karolnowak/simplehttpserver/Content.kt:33 | the type is the fallback exactly when the command failed, timed out, gave no type, or itself said `binary/octet-stream` |
| Contents.FileContentOf | src/main/kotlin/net/karolnowak/simplehttpserver/Content.kt:15-26 | a missing path fails first; a present path that `readAllBytes` cannot read (a directory, an unreadable file) fails next; otherwise the content holds the file's type and bytes |
| Contents.Type | src/main/kotlin/net/karolnowak/simplehttpserver/Content.kt:25-76 | a file reports its own type, a listing `text/html; charset=UTF-8`, and no content throws |
| Contents.Length | src/main/kotlin/net/karolnowak/simplehttpserver/Content.kt:7-11 | the length is the number of bytes; no content has length 0 |
| Contents.NoContentIsEmpty | src/main/kotlin/net/karolnowak/simplehttpserver/Content.kt:74-78 | no content has no bytes, length 0 and no type |
| ContentProviders.ContentFromPath | src/main/kotlin/net/karolnowak/simplehttpserver/ContentProvider.kt:7-12 | a regular file gives a file provider of the path, a directory a directory provider of its listing, anything else an error |
| ContentProviders.AnyEndsWithIff | src/main/kotlin/net/karolnowak/simplehttpserver/ContentProvider.kt:28 | `any` holds exactly when some entry's path ends with the target |
| ContentProviders.FirstMatch | src/main/kotlin/net/karolnowak/simplehttpserver/ContentProvider.kt:35 | `firstOrNull` gives the first entry whose path ends with the target, and null exactly when none does |
| ContentProviders.RootContained | src/main/kotlin/net/karolnowak/simplehttpserver/ContentProvider.kt:20-28 | every provider holds `/` |
| ContentProviders.Contains | src/main/kotlin/net/karolnowak/simplehttpserver/ContentProvider.kt:21-28 | a file provider holds exactly `/` and the suffixes of its path; a directory provider exactly `/` and the suffixes of its entries' paths |
| ContentProviders.DoesntContain | src/main/kotlin/net/karolnowak/simplehttpserver/ContentProvider.kt:16 | never the root; for a file, exactly the targets the file's path does not end with; for a directory, exactly the targets no entry's path ends with |
| ContentProviders.FileResource | src/main/kotlin/net/karolnowak/simplehttpserver/ContentProvider.kt:22 | fails exactly for a missing path, or for a path `readAllBytes` cannot read; otherwise holds that file's bytes and type |
| ContentProviders.FileIgnoresTarget | src/main/kotlin/net/karolnowak/simplehttpserver/ContentProvider.kt:22 | a file provider gives the same resource for every target |
| ContentProviders.GetFileBytes | src/main/kotlin/net/karolnowak/simplehttpserver/ContentProvider.kt:34-35 | no matching entry fails (`readAllBytes(null)`); otherwise the bytes of the first matching entry, or a read failure when that entry cannot be read |
| ContentProviders.GetResource | src/main/kotlin/net/karolnowak/simplehttpserver/ContentProvider.kt:20-32 | a file provider gives its file; a directory gives its listing for `/`, fails when no entry matches, and otherwise serves the bytes of the first matching entry |
| ContentProviders.ContainedHasMatch | src/main/kotlin/net/karolnowak/simplehttpserver/ContentProvider.kt:27-35 | a held non-root target has a first match, and its resource is that entry's file |
| ContentProviders.NotContainedHasNoResource | src/main/kotlin/net/karolnowak/simplehttpserver/ContentProvider.kt:27-35 | a target a directory does not hold has no resource |
| ContentProviders.ResourceIffServable | src/main/kotlin/net/karolnowak/simplehttpserver/ContentProvider.kt:30-35 | a directory has a resource for `/`, and for another target exactly when its first matching entry exists and can be read |
| ContentProviders.SubdirectoryNotServed | src/main/kotlin/net/karolnowak/simplehttpserver/ContentProvider.kt:32-35 | a target whose first matching entry is a subdirectory fails, since `readAllBytes` throws on a directory |
| ContentProviders.ResourceIffContained | src/main/kotlin/net/karolnowak/simplehttpserver/ContentProvider.kt:27-35 | when every entry exists and can be read, a directory has a resource exactly for the targets it holds |
| ContentProviders.ResourceBytes | src/main/kotlin/net/karolnowak/simplehttpserver/ContentProvider.kt:32-35 | a directory's file resource holds what `getFileBytes` reads for the target |
| ContentProviders.EmptyTargetFirstEntry | src/main/kotlin/net/karolnowak/simplehttpserver/ContentProvider.kt:27-35 | the empty target is held by every non-empty directory and served from its first entry |
| ContentProviders.SuffixNotName | src/main/kotlin/net/karolnowak/simplehttpserver/ContentProvider.kt:28 | matching is on path text: `b.txt` is held by a directory holding only `ab.txt` |
| Responses.Plain | src/main/kotlin/net/karolnowak/simplehttpserver/response/Response.kt:9 | a response built from code and reason has no content and no range |
| Responses.NoContentBody | src/main/kotlin/net/karolnowak/simplehttpserver/response/Response.kt:9 | the default body has length 0, no type and no bytes for any range |
| Responses.StatusLineAndHeaders | src/main/kotlin/net/karolnowak/simplehttpserver/response/Response.kt:11-27 | the head fails exactly for a success whose content has no type or whose range fails; no type is reported exactly for a success without one |
| Responses.FailureHeadExact | src/main/kotlin/net/karolnowak/simplehttpserver/response/Response.kt:11-27 | a failure's head is the status line, `Content-Length: 0`, `Allow: GET` and an empty line, each ended by CRLF |
| Responses.FailureHead | src/main/kotlin/net/karolnowak/simplehttpserver/response/Response.kt:11-27 | a failure's head reads back as the status code and exactly `Content-Length: 0` and `Allow: GET`, ended by an empty line |
| Responses.SuccessRoundTrip | src/main/kotlin/net/karolnowak/simplehttpserver/response/Response.kt:11-27 | a success's head reads back as the status code and exactly `Content-Length`, `Content-Type`, `Accept-Ranges: bytes` and `Connection: Keep-Alive`, plus `Content-Range` when a range was asked for; the length reads back as a number |
| Responses.AsBytes | src/main/kotlin/net/karolnowak/simplehttpserver/response/Response.kt:29 | bytes exist exactly when the head does; they start with the head's UTF-8, and the ranged content follows |
| Responses.BodyFollowsHead | src/main/kotlin/net/karolnowak/simplehttpserver/response/Response.kt:29 | the response bytes are the head's UTF-8 followed by the ranged content |
| Responses.DefaultFailureHasNoBody | src/main/kotlin/net/karolnowak/simplehttpserver/response/Response.kt:9-29 | a failure with the defaults is its head alone |
| Responses.DefaultSuccessHasNoType | src/main/kotlin/net/karolnowak/simplehttpserver/response/Response.kt:9-17 | a success with the default no content cannot be serialised: asking it for a type throws |
| Server.RespondTo | src/main/kotlin/net/karolnowak/simplehttpserver/HttpServer.kt:31-39 | 405 exactly for a method other than `GET`; 404 exactly for a `GET` of a target not held; 200 with the target's bytes exactly for a `GET` of a held target |
| Server.MethodBeforeExistence | src/main/kotlin/net/karolnowak/simplehttpserver/HttpServer.kt:32-34 | a non-`GET` is answered the same whatever the content holds |
| Server.ReadRequest | src/main/kotlin/net/karolnowak/simplehttpserver/HttpServer.kt:42-47 | a request exactly when the line holds two spaces; its space-free tokens joined by spaces give back the line |
| Server.RequestLineRoundTrip | src/main/kotlin/net/karolnowak/simplehttpserver/HttpServer.kt:44-46 | three space-free tokens joined by spaces read back as that request |
| Server.LineDispatch | src/main/kotlin/net/karolnowak/simplehttpserver/HttpServer.kt:31-47 | a request line gets 405 exactly when its method is not exactly `GET`, and 200 exactly for a `GET` of a held target |
| Server.ResponseRoundTrip | src/main/kotlin/net/karolnowak/simplehttpserver/HttpServer.kt:50-60 | the head reads back as four lines: the status code and exactly the one header, `Content-Length` of the body for a success and `Accept: GET` otherwise; the body follows the head unchanged |
| SingleFileServer.RespondTo | src/main/kotlin/HttpServer.kt:36-40 | `GET` exactly gets `200 Spoko` with the file's text; anything else gets `405 Nope` with no body |
| SingleFileServer.ReadRequest | src/main/kotlin/HttpServer.kt:43-48 | a request exactly when the line holds two spaces; its tokens joined by spaces are the upper-cased line |
| SingleFileServer.MethodCaseInsensitive | src/main/kotlin/HttpServer.kt:36-47 | a request line is served exactly when its method spells `get` in any mix of cases |
| SingleFileServer.UpperIsGet | src/main/kotlin/HttpServer.kt:47 | `uppercase()` gives `GET` exactly for the case variants of `get` |
| SingleFileServer.ResponseRoundTrip | src/main/kotlin/HttpServer.kt:51-58 | the text reads back as the status code and exactly the one header, whose `Content-Length` is the body's UTF-8 size for a success |
| SingleFileServer.ResponseBytes | src/main/kotlin/HttpServer.kt:57-60 | after the head a success carries the body's UTF-8 and a CRLF, two bytes more than `Content-Length` says; a failure ends at its head |
| Numbers.Dec | src/main/kotlin/net/karolnowak/simplehttpserver/request/Range.kt:13 | `dec()` subtracts one and wraps from the smallest `Int` to the largest |
| Numbers.ToIntOfIntToString | src/main/kotlin/net/karolnowak/simplehttpserver/request/Range.kt:14-16 | `toInt` reads back the text of every `Int` |
| Numbers.ToInt | src/main/kotlin/net/karolnowak/simplehttpserver/request/Range.kt:14-16 | a result is the signed value of an optional sign followed by at least one digit |
| Numbers.ToIntOfSigned | src/main/kotlin/net/karolnowak/simplehttpserver/request/Range.kt:14-16 | an optional sign and a non-empty digit string are read as their signed value exactly when it fits in an `Int` |
| Utf8.DecodeEncodeChar | src/main/kotlin/net/karolnowak/simplehttpserver/response/Response.kt:29 | every character's UTF-8 decodes back to it |
| Utf8.EncodeConcat | src/main/kotlin/net/karolnowak/simplehttpserver/response/Response.kt:29 | encoding distributes over concatenation |
| Text.TrimSpec | src/main/kotlin/net/karolnowak/simplehttpserver/common/Headers.kt:14 | `trim` drops exactly the leading and trailing whitespace |
| Text.SplitJoin | src/main/kotlin/net/karolnowak/simplehttpserver/HttpServer.kt:44 | joining the parts of a split with the delimiter gives back the text |
| Text.SplitCount | src/main/kotlin/net/karolnowak/simplehttpserver/HttpServer.kt:44-45 | a split has one part more than the text holds delimiters |

Functions that only compute are specified by the lemmas in their rows: `Contents.AsByteArray`, `ListingText` and `ListItem` by `ListingPage`, `ListingBytes` and `ItemsCons`; `Server.StatusLineAndHeaders` and `AsBytes` by `Server.ResponseRoundTrip`; `SingleFileServer.ToString` and `AsBytes` by `SingleFileServer.ResponseRoundTrip` and `ResponseBytes`.

## Left out

- Sockets, threads, the accept loop, `runCatching` around each connection, the `println` calls and `App.kt` are left out. These are I/O and process setup. The model starts from a request line, and from the header lines as a sequence of strings.
- `readLine` is left out. The request line arrives as a string, and the header block as a sequence of lines. `Text.Lines` breaks at `\n`, `\r\n` and a lone `\r`. It models Kotlin's `lines()` inside `trimMargin`, through which the listing page is built, and it is also used to read serialised responses back.
- Running `file -I` is left out. It is a foreign process. Its outcome (exit value and output, still running after the 50 ms timeout, or not started) is the parameter `Contents.CommandOutcome`.
- The file system is given as values. `Files.exists`, `readAllBytes` and the command outcome per path are the `Contents.Disk` parameter. Its `read` is partial, because `readAllBytes` throws on a directory and on a missing or unreadable file; which paths fail is part of the parameter. `isRegularFile`, `isDirectory` and `Files.list` are the `FileKind` and listing arguments of `ContentFromPath`.
- `FileContent` takes a `Path`, but `ContentProvider.kt` (lines 22 and 32) passes it the `ByteArray` from `readAllBytes`. The model takes the path form: a provider builds `FileContent` of the file's path.
- `App.kt` passes a `ByteArray` to `HttpServer`, whose parameter is a `Content`. `App.kt` is not part of this model.
- The packaged `HttpServer.kt` calls `content.doesntContain(target)` and `content.asByteArray(target)`, which `Content` does not declare. `Server.Site` stands for those two queries.
- `Response.kt` calls `content.length(range)` and `content.asByteArray(range)`, which `Content` does not declare. `Responses.Body` keeps the ranged length and bytes abstract. The whole length is `length()`.
- `fileBytes.decodeToString()` in the first iteration is left out. The decoded text is the parameter of `SingleFileServer.RespondTo`.
- `HttpServer::class.java.getResource` in the first iteration's `getFileBytes` is left out. It is a class-path lookup.
- `Contents.SortEntries`: `sortedWith` is stable, and the model's insertion sort is too, but stability itself is not proved.
- `Path.fileName` comparison is modelled as code-point order of the text after the last `/`.
- Only the root path has a null `fileName` in Kotlin, which the listing would print as `null`. The model gives the root the empty name. An entry's path is the text `toString()` prints, which java.nio never ends with `/` except for the root.
- `Text.Upper` upper-cases ASCII letters only. Kotlin's `uppercase()` also maps other scripts and can lengthen a string (`ß` to `SS`).
- `Numbers.ToInt`: Kotlin's `toInt` also accepts non-ASCII decimal digits. The model accepts only `0`-`9`.
- Strings are sequences of code points. UTF-16 surrogate pairs and the encoding of lone surrogates are not modelled.
- `Ranges.AsIntRange`: the Kotlin exceptions (`NoSuchElementException` from `last()` on the empty spec, `NumberFormatException`, the destructuring of a one-part split) become the three `RangeError` values. Which exception class is thrown is not kept.
