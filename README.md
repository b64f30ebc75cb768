# NoteIDE core, modelled in Dafny

This project models the logic of NoteIDE, a command-line tool that publishes Markdown
files to note.com, and proves properties of that model. It covers the parts that are not I/O:

- **Markdown images** (`image_link.dfy`, `image_handler.dfy`, `regex_escape.dfy`):
  - detection of `![alt](path)` references, skipping web URLs and unusable files;
  - the extension-to-MIME table and image file validation;
  - regular-expression escaping of paths and the literal rewriting of references to uploaded URLs.
- **Content post-processing** (`converter.dfy`):
  - substitution of uploaded image URLs and collection of media ids before conversion;
  - the deletion-only HTML sanitiser and the HTML validator.
- **Front matter** (`parser.dfy`): normalisation of the metadata map and validation with an ordered error list.
- **Post records** (`post.dfy`): the record-to-entity round trip and the elapsed time.
- **Post history store** (`post_history.dfy`): a class over the backing file. `save` and `delete` read the whole file, change the list and write it back; `saveMultiple` writes the given list without reading.
- **Note API client** (`rate_limit.dfy`, `retry.dfy`, `client.dfy`): a class with the settings, the cookie auth and the request log, covering:
  - the sliding-window rate limiter;
  - the exponential-backoff retry loop;
  - the auth check that runs before every note operation.

`text.dfy` holds JavaScript string behaviour shared by the files:
- whitespace as `\s` and `trim()` see it;
- ASCII case folding of non-Unicode `/i` regular expressions;
- `join`, and the subsequence order used for "only deletes" and "in this order".

A string is a sequence of Dafny characters (Unicode scalar values). Its length is JavaScript's `length` for text inside the Basic Multilingual Plane (BMP); see "## Left out" for the rest.

Where the code reads the outside world, the model takes it as a parameter:
- the clock (`now`, `clock`);
- `fs.stat` (`stat`) and `path.resolve` (`resolve`);
- the Markdown converter (`convert`);
- gray-matter (`matter`);
- date parsing (`parseDate`, `timeOf`);
- the network (`transport`, one reply per attempt).

## Model

| member | source | states |
|---|---|---|
| RegexEscape.EscapeRegExp | src/core/markdown/image-handler.ts:179-181 | the escaped path is a pattern of escaped syntax characters and plain characters whose only match is the path itself; length between once and twice the input |
| RegexEscape.EscapeKeepsPlainText | src/core/markdown/converter.ts:85-87 | a path without any of `. * + ? ^ $ { } ( ) \| [ ] \` is its own pattern |
| RegexEscape.EscapeInjective | src/core/markdown/image-handler.ts:166-169 | different paths give different patterns |
| ImageLink.LinkAt | src/core/markdown/image-handler.ts:35 | a match at `i` is the text `![alt](path)` with no `]` in alt and a non-empty path without `)`, ending right after `)` |
| ImageLink.LinkAtComplete | src/core/markdown/image-handler.ts:35 | every such text at `i` is the match found at `i` |
| ImageLink.NextLink | src/core/markdown/image-handler.ts:40 | `exec` from `lastIndex` finds the leftmost match at or after it, or none exists |
| ImageLink.Links | src/core/markdown/image-handler.ts:35-40 | every candidate of the scan is a genuine match at or after the start, and consecutive candidates are in text order without overlapping |
| ImageLink.LinksComplete | src/core/markdown/image-handler.ts:35-40 | every position where the pattern matches lies inside some candidate |
| ImageLink.LinkWithPathAt | src/core/markdown/image-handler.ts:166-169 | the rewriter's pattern matches `![alt](path)` for the literal path, alt without `]` |
| ImageLink.DetectedLinkIsRewritable | src/core/markdown/image-handler.ts:166-169 | every link the scanner detects is matched again by the rewriter keyed on its path |
| ImageLink.ExpandVerbatim | src/core/markdown/image-handler.ts:170 | a replacement without `$` is inserted as it is |
| ImageLink.ExpandTemplate | src/core/markdown/image-handler.ts:170 | for a URL without `$`, `![$1](url)` becomes `![alt](url)` with the matched alt |
| ImageLink.ReplaceIsSubstitution | src/core/markdown/image-handler.ts:166-170 | with a `$`-free URL the global replace equals the plain left-to-right substitution of each link for the path by the same link with the URL |
| ImageLink.ReplaceWithoutMatch | src/core/markdown/image-handler.ts:166-170 | where no link carries the path, the text is unchanged |
| ImageLink.ReplaceWithSelf | src/core/markdown/image-handler.ts:166-170 | rewriting a `$`-free path to itself reproduces the text |
| ImageHandler.StripTrailingSlashes | src/core/markdown/image-handler.ts:94 | a prefix of the path that does not end in `/` (unless empty) |
| ImageHandler.BaseName | src/core/markdown/image-handler.ts:94 | the last segment holds no `/` |
| ImageHandler.Extname | src/core/markdown/image-handler.ts:94 | `path.extname` is empty exactly when the last segment is `..` or has no `.` after its first character; otherwise it is the segment's end from its last `.` |
| ImageHandler.SegmentExtension | src/core/markdown/image-handler.ts:94 | the same, for one segment: empty for `..`, dot-files and dot-less names, otherwise the suffix from the last `.` |
| ImageHandler.ExtnameOfFileName | src/core/markdown/image-handler.ts:94 | a file `stem + ext` in any directory has extension `ext` |
| ImageHandler.NoExtensionIsOctetStream | src/core/markdown/image-handler.ts:93-106 | a path without an extension (`photo`, `.png`, `..`) is typed `application/octet-stream` |
| ImageHandler.GetMimeTypeSupported | src/core/markdown/image-handler.ts:93-106 | the MIME type is supported exactly when the lower-cased extension is in the table; otherwise it is `application/octet-stream` |
| ImageHandler.MimeOfFileName | src/core/markdown/image-handler.ts:93-106 | any letter case of `.jpg .jpeg .png .gif .webp .svg` ending a file name gives its table type, which is supported |
| ImageHandler.DetectImages | src/core/markdown/image-handler.ts:30-88 | the `exec` loop returns exactly the accepted candidates of the scan, in text order |
| ImageHandler.InspectCandidate | src/core/markdown/image-handler.ts:41-84 | one loop iteration: the candidate is kept, with its resolved path, MIME type and size, exactly when `Accept` keeps it |
| ImageHandler.AcceptedStep | src/core/markdown/image-handler.ts:40-85 | one loop iteration: the next candidate's verdict followed by the rest of the scan |
| ImageHandler.AcceptedSound | src/core/markdown/image-handler.ts:44-81 | every returned reference is not `http://`/`https://`, is a regular file of at most 10 MiB with a supported MIME type, and carries its literal path |
| ImageHandler.AcceptedComplete | src/core/markdown/image-handler.ts:55-84 | every candidate passing the filters is returned; failing ones, stat errors included, are only skipped |
| ImageHandler.AcceptedKeepsOrder | src/core/markdown/image-handler.ts:40-81 | returned original paths are the candidates' paths in order, some deleted |
| ImageHandler.AcceptedIsSomes | src/core/markdown/image-handler.ts:40-84 | the scan's result is the values of the per-candidate verdicts, in candidate order |
| ImageHandler.PassingExact | src/core/markdown/image-handler.ts:55-81 | `Passing` lists every candidate that passes the loop body's filters, each once, ascending, and no other |
| ImageHandler.AcceptedByIndex | src/core/markdown/image-handler.ts:40-84 | one reference per passing candidate, duplicates kept: reference `i` is the verdict on the `i`-th passing candidate |
| ImageHandler.ValidateImageFile | src/core/markdown/image-handler.ts:118-152 | valid iff no error; a failing stat gives the single read error; otherwise the file checks |
| ImageHandler.FileErrors | src/core/markdown/image-handler.ts:126-143 | each of not-a-file, empty, too large, unsupported MIME is reported exactly when its check fires, in that order |
| ImageHandler.ValidateImageFileValid | src/core/markdown/image-handler.ts:148-151 | valid iff stat succeeds on a non-empty regular file of at most 10 MiB with a table extension |
| ImageHandler.ReplaceImageReferences | src/core/markdown/image-handler.ts:158-174 | the loop applies the map entries one after another in insertion order |
| ImageHandler.ReplaceEachEmpty | src/core/markdown/image-handler.ts:162-173 | an empty map returns the input |
| ImageHandler.ReplaceEachWithSelf | src/core/markdown/image-handler.ts:165-171 | entries mapping a `$`-free path to itself change nothing |
| Converter.ProcessMarkdownContent | src/core/markdown/converter.ts:37-80 | the HTML is the conversion of the rewritten Markdown; media ids as collected; the images keep length and order with `absolutePath = originalPath`, `image/unknown`, size 0 and the upload fields copied |
| Converter.RewriteWithoutUploads | src/core/markdown/converter.ts:45-56 | without a non-empty uploaded URL the Markdown reaches the converter unchanged |
| Converter.RewriteAllIsReplaceEach | src/core/markdown/converter.ts:45-56 | the rewrite is `replaceImageReferences` over the uploaded images' `(originalPath, uploadedUrl)` pairs in list order |
| Converter.MediaIdsInOrder | src/core/markdown/converter.ts:57-59 | the media ids are the images' ids in input order with some deleted, and none is empty |
| Converter.MediaIdsCounts | src/core/markdown/converter.ts:57-59 | every non-empty id is collected as often as it occurs among the images; with MediaIdsInOrder, exactly the non-empty `uploadedMediaId`s in input order |
| Converter.MediaIdsMembers | src/core/markdown/converter.ts:57-59 | each media id is some image's non-empty id, and every image's non-empty id is collected |
| Converter.FindIgnoreCase | src/core/markdown/converter.ts:101 | the first case-insensitive occurrence at or after a position, or none |
| Converter.SkipWord | src/core/markdown/converter.ts:107 | the greedy `\w+` run |
| Converter.SkipSpace | src/core/markdown/converter.ts:107 | the greedy `\s*` run |
| Converter.HandlerAt | src/core/markdown/converter.ts:107 | a match of `\son\w+\s*=` starts with whitespace and `on` and ends with `=` |
| Converter.BlockEnd | src/core/markdown/converter.ts:101-104 | a script or style block match starts with the opening word and is non-empty |
| Converter.QuotedHandlerEnd | src/core/markdown/converter.ts:107-108 | a quoted handler match starts with an event-handler prefix |
| Converter.MatchEnd | src/core/markdown/converter.ts:101-114 | every match of a sanitiser pattern is non-empty and inside the text |
| Converter.RemoveAllConcat | src/core/markdown/converter.ts:98-115 | running two lists of passes in turn is running their concatenation |
| Converter.SanitizeHtmlForNote | src/core/markdown/converter.ts:96-118 | the four passes, the dangerous-word loop and `trim`; the result only deletes characters from the input and has no whitespace at either end |
| Converter.PassSubsequence | src/core/markdown/converter.ts:101-114 | each `replace(p, '')` only deletes characters |
| Converter.RemoveSubsequence | src/core/markdown/converter.ts:101-114 | one pass is a subsequence of its input and never longer |
| Converter.RemoveAllSubsequence | src/core/markdown/converter.ts:101-114 | so is any list of passes |
| Converter.SanitizedSubsequence | src/core/markdown/converter.ts:96-118 | output length is at most input length; output is a subsequence of input |
| Converter.PlainTextOnlyTrimmed | src/core/markdown/converter.ts:96-118 | input with no `<`, no `=` and no `datauri`/`vbscript:`/`javascript:` in any case is returned as its trim |
| Converter.PassWithoutMatch | src/core/markdown/converter.ts:101-114 | a pass whose pattern matches nowhere changes nothing |
| Converter.PassShrinksOnMatch | src/core/markdown/converter.ts:101-114 | a pass whose pattern matches somewhere deletes something |
| Converter.RemoveAllWithoutMatch | src/core/markdown/converter.ts:101-114 | passes matching nowhere change nothing |
| Converter.RemoveAllIdle | src/core/markdown/converter.ts:101-114 | passes that keep the length change nothing and match nowhere |
| Converter.FindHandler | src/core/markdown/converter.ts:135 | the first event-handler position, or none anywhere |
| Converter.ValidateNoteHtml | src/core/markdown/converter.ts:123-149 | valid iff no warning; each of script, event handler and size (length over 1000000) is reported exactly when its test fires, in that order |
| Converter.NoScriptBlock | src/core/markdown/converter.ts:130 | without `<script` in any case no script block is removed |
| Converter.NoQuotedHandler | src/core/markdown/converter.ts:107-135 | without an event-handler prefix no quoted handler is removed |
| Converter.MarkupPassesIdle | src/core/markdown/converter.ts:101-108 | such HTML, without style blocks, passes the four markup passes unchanged |
| Converter.CleanHtmlKeepsMarkup | src/core/markdown/converter.ts:123-149 | HTML without script and event-handler warnings, and without style blocks, is not changed by the markup passes |
| Converter.NestedOtherPatternsIdle | src/core/markdown/converter.ts:101-115 | on `javajavascript:script:` all patterns but `javascript:` match nowhere |
| Converter.NestedJavascriptPass | src/core/markdown/converter.ts:112-115 | the `javascript:` pass on that input deletes the inner occurrence and leaves `javascript:` |
| Converter.SanitizerLeavesDangerousWord | src/core/markdown/converter.ts:111-117 | as written, `javajavascript:script:` sanitises to `javascript:`, which the pattern still matches |
| Converter.SanitizedFixpointIsClean | src/core/markdown/converter.ts:96-118 | text the sanitiser leaves unchanged contains none of its patterns |
| Converter.SanitizeFully | src/core/markdown/converter.ts:96-118 | sanitising until nothing changes reaches a fixpoint and only deletes characters |
| Converter.SanitizeFullyIsClean | src/core/markdown/converter.ts:96-118 | the fixpoint holds no script block, style block, quoted handler or dangerous word in any case |
| Parser.MapToJsString | src/core/markdown/parser.ts:33 | each tag stringified, same length and order |
| Parser.ParseMarkdownFile | src/core/markdown/parser.ts:19-43 | falsy title becomes `Untitled`, else stringified; description and image present iff truthy; tags present iff an array, each element stringified; body trimmed; path and name passed through |
| Parser.ParseMarkdownContent | src/core/markdown/parser.ts:85-87 | parsing with path `""` and name `unknown.md` |
| Parser.ParsedStringTitleNonEmpty | src/core/markdown/parser.ts:29 | a string or missing title never parses to an empty title |
| Parser.ParsedStringTags | src/core/markdown/parser.ts:32-34 | a list of string tags parses to the same strings |
| Parser.ValidateFrontMatter | src/core/markdown/parser.ts:50-80 | valid iff no error; empty-or-blank title, title over 200, description over 500 and more than 10 tags are each reported exactly when they hold, in that order |
| Parser.ParsedWellFormedIsValid | src/core/markdown/parser.ts:19-80 | a file with a non-blank string title of at most 200, a short or no description and at most 10 tags parses to valid front matter |
| PostModel.FromRecord | src/data/models/post.ts:22-31 | the constructor copies all eight fields |
| PostModel.ToRecord | src/data/models/post.ts:36-47 | `toRecord` returns exactly the eight fields |
| PostModel.RecordRoundTrip | src/data/models/post.ts:22-47 | `new Post(r).toRecord()` is `r`; absent `noteUrl`/`mediaIds` stay absent |
| PostModel.PostRoundTrip | src/data/models/post.ts:22-47 | a post rebuilt from its record is the same post |
| PostModel.GetElapsedTime | src/data/models/post.ts:52-61 | defined iff the date parses; then posted time plus elapsed time is `now` |
| PostModel.ElapsedTimeFollowsClock | src/data/models/post.ts:59-61 | elapsed time grows exactly as the clock does |
| PostHistory.ToRecords | src/data/repositories/post-history.ts:91 | `toRecord` of each post, in order |
| PostHistory.FromRecords | src/data/repositories/post-history.ts:43 | `new Post` of each record, in order |
| PostHistory.RecordsRoundTrip | src/data/repositories/post-history.ts:43-91 | posts written as records read back as the same posts |
| PostHistory.IndexOfId | src/data/repositories/post-history.ts:72 | `findIndex`: the first index with the id, or none has it |
| PostHistory.FindId | src/data/repositories/post-history.ts:61-62 | `find`: the first post with the id, or none has it |
| PostHistory.Upsert | src/data/repositories/post-history.ts:72-77 | same length when the id is present; appended at the end when it is new |
| PostHistory.UpsertReplacesFirst | src/data/repositories/post-history.ts:72-74 | an existing id: the first post with it is replaced in place, all others unchanged |
| PostHistory.UpsertKeepsIdsUnique | src/data/repositories/post-history.ts:72-77 | unique ids stay unique |
| PostHistory.FindAfterUpsert | src/data/repositories/post-history.ts:59-79 | after saving, looking the id up finds the saved post |
| PostHistory.WithoutId | src/data/repositories/post-history.ts:104 | every post with the id goes, every other post stays with all its copies, original order kept |
| PostHistory.WithoutAbsentId | src/data/repositories/post-history.ts:102-106 | deleting an absent id keeps the list as it is |
| PostHistory.CountStatus | src/data/repositories/post-history.ts:130-131 | the number of posts with that status: its multiplicity among the posts' statuses |
| PostHistory.CountsPartition | src/data/repositories/post-history.ts:129-131 | drafts plus published is the total |
| PostHistory.LatestIndex | src/data/repositories/post-history.ts:134-138 | the first post with the latest time, the one the descending stable sort puts first |
| PostHistory.StatsOf | src/data/repositories/post-history.ts:126-140 | total is the count; draft and published counts are the numbers of posts with each status and add up to the total; last date absent iff empty and otherwise the `postedAt` of the first post with the latest time |
| PostHistory.Written | src/data/repositories/post-history.ts:89-96 | version `1.0.0`, the given time, records that read back as the posts |
| PostHistory.PostHistoryRepository.constructor | src/data/repositories/post-history.ts:32-35 | remembers the path; the file is whatever is on disk |
| PostHistory.PostHistoryRepository.FindAll | src/data/repositories/post-history.ts:40-53 | a missing file is an empty history; any other read or parse failure propagates; otherwise the stored records as posts |
| PostHistory.PostHistoryRepository.FindById | src/data/repositories/post-history.ts:59-63 | the first stored post with the id (every earlier post has another id), none when absent; read failures propagate |
| PostHistory.PostHistoryRepository.SaveMultiple | src/data/repositories/post-history.ts:85-97 | the file becomes version `1.0.0`, the posts' records in order and the new time, whatever it held; reading it gives the posts back |
| PostHistory.PostHistoryRepository.Save | src/data/repositories/post-history.ts:68-80 | read failure: nothing written; otherwise the upserted list is written, the saved post is found by its id, unique ids stay unique |
| PostHistory.PostHistoryRepository.Delete | src/data/repositories/post-history.ts:102-106 | read failure: nothing written; otherwise the filtered list is written, and the id is no longer found |
| PostHistory.PostHistoryRepository.GetStats | src/data/repositories/post-history.ts:120-141 | read failures propagate; otherwise exactly `StatsOf` of the stored posts: counts by status and the first latest `postedAt` |
| PostHistory.PostHistoryRepository.Exists | src/data/repositories/post-history.ts:146-159 | false for a missing file, true for any parsable one (even one `findAll` fails on), other failures propagate |
| RateLimit.Prune | src/core/note-api/client.ts:64-66 | keeps, in order and with every copy, exactly the times strictly newer than `now - 60000` |
| RateLimit.PruneShrinks | src/core/note-api/client.ts:64-66 | pruning never lengthens the log |
| RateLimit.ExpiredDropped | src/core/note-api/client.ts:61-66 | a request exactly 60000 ms old is dropped |
| RateLimit.PruneRecent | src/core/note-api/client.ts:64-66 | a log of recent times is kept whole |
| RateLimit.CeilSeconds | src/core/note-api/client.ts:73 | `Math.ceil(ms / 1000)` is the least whole number of seconds covering `ms` |
| RateLimit.WaitSeconds | src/core/note-api/client.ts:70-73 | `ceil((log[0] + 60000 - now) / 1000)`; `NaN` (none) for an empty log |
| RateLimit.Admit | src/core/note-api/client.ts:59-79 | pruning always sticks; refused iff the pruned log is full, then nothing appended; otherwise `now` appended at the end |
| RateLimit.AdmitKeepsLimit | src/core/note-api/client.ts:25-78 | the log never holds more than the limit (none when it is not positive) |
| RateLimit.AdmitKeepsRecent | src/core/note-api/client.ts:60-78 | afterwards every logged time is within the last minute |
| RateLimit.RejectionWait | src/core/note-api/client.ts:69-75 | the reported wait is at least 1 s, at most 60 s when no logged time is in the future, and `NaN` only when the limit is not positive |
| Retry.Attempt | src/core/note-api/client.ts:91-124 | an admitted attempt returns an `ok` response and only such a response; a refused attempt sends nothing; an admitted attempt never fails with the rate limit; errors carry the status or the transport failure |
| Retry.RunFrom | src/core/note-api/client.ts:84-139 | each run makes at least one attempt and sleeps once between consecutive attempts |
| Retry.DelayClosedForm | src/core/note-api/client.ts:128 | failure `k` sleeps `retryDelayMs * 2^k` |
| Retry.RunAttempts | src/core/note-api/client.ts:127-137 | at most `maxRetries + 1` attempts, one when `maxRetries` is not positive |
| Retry.RunDelays | src/core/note-api/client.ts:127-134 | the sleeps are the backoff schedule in order |
| Retry.RunKeepsLimit | src/core/note-api/client.ts:91 | each attempt passes the limiter, so the log stays within the limit |
| Retry.RunReturnsOk | src/core/note-api/client.ts:106-108 | an admitted attempt with an `ok` response ends the call at once with that status, no sleep and one attempt |
| Retry.RunReturnsOnlyOk | src/core/note-api/client.ts:106-108 | a response is returned only when the last attempt got `ok` |
| Retry.RunGivesUp | src/core/note-api/client.ts:125-137 | an error is thrown only when not retryable or when `retryCount` has reached `maxRetries` |
| Retry.RunRethrowsStatus | src/core/note-api/client.ts:110-137 | a thrown HTTP error is the last attempt's non-`ok` status |
| Retry.RunRethrowsAbort | src/core/note-api/client.ts:121-137 | a thrown network error is the last attempt's |
| Retry.GeometricDelays | src/core/note-api/client.ts:128 | the first `n` sleeps add up to `retryDelayMs * 2^n - retryDelayMs` |
| Retry.TotalDelay | src/core/note-api/client.ts:127-134 | a call of `n + 1` attempts sleeps `retryDelayMs * (2^n - 1)` in total |
| Retry.ClientErrorAttempts | src/core/note-api/client.ts:110-134 | a server always answering the same 4xx: `maxRetries - retryCount + 1` attempts as written, one as intended |
| Retry.ClientErrorRetried | src/core/note-api/client.ts:110-134 | as written, that server is asked `maxRetries + 1` times before its 4xx error is thrown |
| Retry.ClientErrorNotRetried | src/core/note-api/client.ts:110-115 | as the comment intends, it is asked once |
| NoteApi.OrDefault | src/core/note-api/client.ts:30-33 | `value \|\| fallback`: absent or `0` gives the default |
| NoteApi.OrDefaultText | src/core/note-api/client.ts:29 | absent or `""` gives the default URL |
| NoteApi.CookiePairs | src/core/note-api/client.ts:50-51 | `name=value` per cookie, in order |
| NoteApi.CookieHeaderShape | src/core/note-api/client.ts:50-52 | empty without cookies; one pair for one cookie; each further cookie adds `; ` and its pair |
| NoteApi.NoteApiClient.constructor | src/core/note-api/client.ts:28-34 | defaults `https://note.com`, 30000, 3, 1000, 10 for unset or falsy settings; no auth, empty log |
| NoteApi.NoteApiClient.SetCookieAuth | src/core/note-api/client.ts:39-41 | replaces the auth, leaves the log, keeps the client invariant |
| NoteApi.NoteApiClient.GetCookieString | src/core/note-api/client.ts:46-53 | fails iff no auth; otherwise the `; `-joined pairs |
| NoteApi.NoteApiClient.GetRequestStats | src/core/note-api/client.ts:216-233 | counts the requests newer than `now - 60000`; remaining is never negative, adds up with the count to the limit when positive, and is zero exactly when `checkRateLimit` would refuse |
| NoteApi.NoteApiClient.CheckRateLimit | src/core/note-api/client.ts:59-79 | the new log is `Admit`'s; refused exactly when the stats show no slot left; the log stays within the limit |
| NoteApi.NoteApiClient.RequestWithRetry | src/core/note-api/client.ts:84-139 | the loop's result, sleeps, attempt count and final log are those of the retry model as written |
| NoteApi.NoteApiClient.AttemptOnce | src/core/note-api/client.ts:89-124 | one attempt: the rate-limit check records the request or refuses it, then the reply becomes the status or the error thrown |
| NoteApi.LoopStops | src/core/note-api/client.ts:106-137 | an attempt that succeeds, or fails with no retries left, ends the call with its outcome and the sleeps so far |
| NoteApi.LoopContinues | src/core/note-api/client.ts:125-134 | a failed attempt with retries left adds one sleep of `retryDelayMs * 2^retryCount` and the call goes on from the next attempt |
| NoteApi.NoteApiClient.Call | src/core/note-api/client.ts:148-156 | without auth: fails before any attempt, log untouched; with auth: one retried request carrying the cookie header |
| NoteApi.NoteApiClient.CreateTextNote | src/core/note-api/client.ts:144-160 | the same for `POST /api/v1/text_notes` |
| NoteApi.NoteApiClient.UpdateTextNote | src/core/note-api/client.ts:165-182 | the same for `PUT /api/v1/text_notes/{id}` |
| NoteApi.NoteApiClient.UploadImage | src/core/note-api/client.ts:190-211 | the same for `POST /api/v1/upload_image` |
| Text.Trim | src/core/markdown/parser.ts:39 | `trim()` removes exactly the leading and trailing whitespace |
| Text.TrimIdempotent | src/core/markdown/converter.ts:117 | trimming twice is trimming once |

## Left out

- Networking and timers of the client:
  - `fetch`, `AbortController` and the timeout are replaced by one reply per attempt. The timeout setting is only stored.
  - The `setTimeout` sleeps are returned as numbers, not waited for.
  - Response JSON decoding is not modelled, and operations return the response status.
  - Request bodies (JSON, `FormData`) and the `Content-Type`/`User-Agent` headers are not modelled. A request is its method, URL and `Cookie` header.
- `console.warn`/`console.log` output.
- The clock (`Date.now`) and `new Date(...)` parsing: they are parameters.
  - `GetElapsedTime` covers `getPostedDate` through its `parseDate` parameter.
  - `getStats` uses a total `timeOf`. An invalid date, whose `NaN` makes the sort comparator inconsistent, is not modelled.
- File system and JSON:
  - `fs.stat` and `path.resolve` are parameters. `readImageFile` is a bare `fs.readFile` and is not modelled.
  - `mkdir` and `writeFile` always succeed in `SaveMultiple`. Their failures are not modelled.
  - The history file is the `disk` field of one repository object, so two repositories on the same path do not share it.
  - The parsed file is a typed value. A `status` outside `draft`/`published` and malformed record fields are not represented.
- Third-party parsing: the remark/rehype conversion is the `convert` parameter and gray-matter's split is `matter`. Every front-matter value that is not a string, array, `null` or `undefined` is represented only by its truthiness and its `String(...)` text.
- Parser.ValidateFrontMatter: `tags` is typed as a list, so the `tags must be an array` branch (parser.ts:69-70) cannot arise and is not modelled.
- Numbers: client settings are integers. `NaN`, fractional and out-of-range values are not modelled; negative values, which are truthy, are kept as given.
- ImageHandler.ReplaceImageReferences takes the `Map` as a list of pairs in insertion order. Duplicate keys, which a `Map` cannot hold, are allowed.
- Cookie attributes other than name and value (domain, path, expiry, flags) do not reach the header and are dropped. So is `expiresAt` checking, which lives in the authentication module and is not part of this model.
- String lengths: a character outside the BMP (an emoji, say) has length 2 in JavaScript and 1 here, and a lone surrogate cannot be represented. The length limits of Parser.ValidateFrontMatter (200 and 500) and Converter.ValidateNoteHtml (1000000) are therefore exact only for BMP text.
- ImageHandler.ValidateImageFile reports errors as kinds rather than message strings. The `Failed to read file: ${error}` message carries the underlying error's text, which the `ReadFailed` kind drops.
- Concurrency: the code has none. Concurrent read-modify-write of the history file is not modelled.
- Retry.ClientErrorAttempts and the two lemmas built on it assume the rate limiter has room for every attempt. A refusal by the client's own limiter is a retryable error too, covered by `Retry.RunGivesUp` and `Retry.RunKeepsLimit`.
- NoteApi.NoteApiClient.RequestWithRetry and the three note operations follow the code as written (policy `AsWritten`). The corrected 4xx policy is `Retry.Intended`, proved in `Retry.ClientErrorNotRetried`.

## Findings

| source | as written | input that shows it | evidently intended | confidence | as-written member | corrected member |
|---|---|---|---|---|---|---|
| src/core/markdown/converter.ts:111-117 | each dangerous word is removed by one global replace; deleting an inner occurrence can join its two halves into a new one | `javajavascript:script:` sanitises to `javascript:` | no dangerous word left in the output; repeating the sanitiser until nothing changes achieves it | medium, not executed | Converter.SanitizerLeavesDangerousWord | Converter.SanitizeFullyIsClean |
| src/core/note-api/client.ts:110-115 | a 4xx response is thrown inside the `try` whose `catch` retries every error, so it is retried | a server answering 404, default settings: 4 attempts with sleeps of 1000, 2000 and 4000 ms | per the comment, a 4xx is thrown without retrying | high, not executed | Retry.ClientErrorRetried | Retry.ClientErrorNotRetried |
