# Chat-OCR back-ends: rate limiter, upload checks and reply post-processing

The project is a web tool that sends screenshots of chat conversations to a Gemini vision model and
returns the extracted text as JSON. It ships two Flask back-ends:

- `backend/app.py`, the local server;
- `api/index.py`, the serverless deployment.

Both contain the same three pieces of decision logic. This Dafny project models them and proves
their properties.

- **Sliding-window rate limiter.**
  - `request_tracker` is a `defaultdict(list)` from a client id to the timestamps of that client's
    admitted requests. It is modelled as the class `SlidingWindow.RequestTracker`, which holds a
    `map<string, seq<int>>` and updates it in place.
  - Every check keeps only the timestamps less than one hour old. It then refuses the request if 10
    remain, and otherwise appends `now` and admits it.
  - The local server also reports the seconds until its oldest request expires, split into minutes
    and seconds, and a status snapshot (`used`, `remaining`, `reset_in_seconds`).
  - The serverless API keys its buckets by the first eight characters of the API key and reports
    `retry_after`.
- **Upload checks.**
  - `allowed_file` accepts a name iff it contains a dot and the lower-cased text after the *last*
    dot is one of `png jpg jpeg gif bmp webp`.
  - The serverless `process_image` checks the request in this order: API key (401), presence of
    images (400), non-empty names (400), and then each name in list order. It rejects the whole
    request at the first disallowed name and names that file in the error.
- **Post-processing of the model's reply.**
  - The local server extracts the text between "```json" (or else "```") and the next "```",
    using Python's `find` and slice semantics. Then it parses the text, falls back to a fixed
    record, and replaces `tanggal` with the date sent by the user.
  - The serverless API drops the reply's first line and one trailing "```", and strips the rest.

Modules:

- `values.dfy`: `Option` and an abstract JSON value.
- `pystr.dfy` (module `PyStr`): the Python `str` operations used, with Python's semantics:
  - `find` returns -1 when nothing is found.
  - `in` on strings tests for a substring.
  - Slices count negative bounds from the end and clamp out-of-range bounds.
  - `strip` removes the full `str.isspace` set.
  - `lower` and `rsplit('.', 1)` are also modelled.
- `uploads.dfy` (module `Uploads`): `allowed_file`, which is identical in both files.
- `window.dfy` (module `SlidingWindow`): the constants, the pruning and admission rule as functions
  on one client's list, their lemmas, and the `RequestTracker` class.
- `local_server.dfy` (module `LocalServer`) and `serverless.dfy` (module `ServerlessApi`):
  the operations of each back-end.

Time is an integer number of seconds passed in as `now`. The model's reply text and the JSON parser
(`parse: string -> Option<Json>`, where `None` stands for a `JSONDecodeError`) are parameters.

A timestamp that has left the window never comes back: pruning at one time and again later is the
same as pruning once, later (`PrunedTwice`).

An unclosed fence in the local server has a quirk, which is real behaviour of `backend/app.py` and is
modelled as written. The closing `find` returns -1, so the slice `[start:-1]` drops the reply's last
character (`ExtractJsonUnclosed`, `ExtractBareUnclosed`).

## Model

| member | source | states |
|---|---|---|
| PyStr.Find | backend/app.py:140-145 | `s.find(sub, start)` is -1 exactly when `sub` does not occur at or after `start`; otherwise it is the first such occurrence |
| PyStr.ContainsFind | backend/app.py:139-144 | `sub in s` holds iff `s.find(sub)` is non-negative |
| PyStr.FindFirstFrom | backend/app.py:141 | the first occurrence at or after `start` is what `find` returns |
| PyStr.OccursAtChar | api/index.py:116 | a one-character string occurs exactly at the positions holding that character |
| PyStr.Bound | backend/app.py:142 | a slice bound is clamped to `[0, len]`: one past the end becomes `len`, a negative one counts from the end and becomes 0 once it reaches before the start |
| PyStr.Slice | backend/app.py:142 | `s[a:b]` is the plain subsequence for in-range bounds, runs to the end for a bound past it, and for `b == -1` stops one before the end |
| PyStr.StripStart | backend/app.py:136 | `lstrip` returns a suffix, removes only whitespace, and leaves no leading whitespace |
| PyStr.StripEnd | backend/app.py:136 | `rstrip` returns a prefix, removes only whitespace, and leaves no trailing whitespace |
| PyStr.Strip | api/index.py:114 | the result of `strip()` has no whitespace at either end |
| PyStr.StripTrims | api/index.py:114 | the input is whitespace + `strip(s)` + whitespace |
| PyStr.StripPadded | backend/app.py:142 | text with no whitespace at its ends, padded by any whitespace on either side, strips back to itself |
| PyStr.StripStartPadded | backend/app.py:136 | `lstrip` removes exactly a whitespace prefix that ends before a non-space character |
| PyStr.StripEndPadded | backend/app.py:136 | `rstrip` removes exactly a whitespace suffix that starts after a non-space character |
| PyStr.StripIdempotent | api/index.py:119 | stripping twice is stripping once |
| PyStr.Lower | backend/app.py:42 | `lower()` keeps the length and lower-cases every character in place |
| PyStr.LastIndexOf | backend/app.py:42 | the position of the last occurrence of a character, or -1 when it is absent |
| Uploads.AllowedFile | backend/app.py:40-42 | an accepted name has a dot, and its extension is 3 or 4 characters and shorter than the name |
| Uploads.Extension | api/index.py:27 | the text after the last dot, lower-cased, holds no dot and is shorter than the name |
| Uploads.AllowedFileIff | backend/app.py:40-42 | a name is accepted iff it has a last dot and the lower-cased text after it is one of the six extensions |
| Uploads.LastDotUnique | api/index.py:27 | `rsplit('.', 1)` splits at the dot with no dot after it |
| Uploads.AllowedFileJoin | api/index.py:25-27 | `stem + "." + ext`, where `ext` has no dot, is accepted iff `ext.lower()` is in the set |
| Uploads.AllowedFileNeedsDot | api/index.py:27 | a name without a dot is rejected |
| Uploads.AllowedFileCaseInsensitive | backend/app.py:42 | lower-casing a name does not change whether it is accepted |
| Uploads.LowerKeepsExtension | backend/app.py:42 | lower-casing a name keeps its last dot and its lower-cased extension |
| Uploads.LowerKeepsDots | backend/app.py:42 | lower-casing a name neither adds nor removes a dot |
| Uploads.LowerKeepsLastDot | backend/app.py:42 | lower-casing keeps the position of the last dot |
| Uploads.LowerSuffix | backend/app.py:42 | lower-casing commutes with taking a suffix |
| Uploads.LowerIdempotent | backend/app.py:42 | lower-casing twice is lower-casing once |
| Uploads.AllowedFileUpperCase | backend/app.py:29-42 | "a.PNG" is accepted |
| Uploads.AllowedFileDottedStem | api/index.py:17-27 | "scan.v2.JpEg" is accepted: only the text after the last dot counts |
| Uploads.AllowedFileRejectsBareExtension | backend/app.py:42 | "png" is rejected because it has no dot |
| Uploads.AllowedFileRejectsEmptyExtension | backend/app.py:29-42 | "a." is rejected because its extension is empty |
| Uploads.AllowedFileRejectsInnerExtension | api/index.py:17-27 | "photo.png.exe" is rejected because an allowed extension before the last dot does not count |
| SlidingWindow.Pruned | backend/app.py:49-52 | pruning never lengthens a list |
| SlidingWindow.PrunedCounts | backend/app.py:49-52 | pruning keeps every copy of a timestamp less than one window old and drops every copy of the others |
| SlidingWindow.Admits | backend/app.py:55 | a list holding fewer than `RATE_LIMIT` entries is always admitted |
| SlidingWindow.After | backend/app.py:49-61 | a check adds at most one entry; on admission the list has at most `RATE_LIMIT` entries and ends with `now` |
| SlidingWindow.Min | backend/app.py:56 | `min(ts)` is an element of `ts` and at most every element |
| SlidingWindow.PrunedMembers | backend/app.py:49-52 | a timestamp survives pruning iff it was stored and is less than one window old |
| SlidingWindow.PrunedSorted | api/index.py:34-37 | pruning keeps a list in arrival order |
| SlidingWindow.SortedCons | api/index.py:34-37 | an element no larger than a sorted list can be put in front of it |
| SlidingWindow.SortedSnoc | api/index.py:42 | appending a time no earlier than every entry keeps the list sorted |
| SlidingWindow.PrunedAll | backend/app.py:49-52 | pruning changes nothing iff every timestamp is inside the window |
| SlidingWindow.PrunedTwice | backend/app.py:307-310 | pruning now and again later is the same as pruning later |
| SlidingWindow.AfterInWindow | backend/app.py:49-61 | after a check every stored timestamp is less than one window before `now` (the newest may be `now`) |
| SlidingWindow.AfterBounded | backend/app.py:49-61 | a check keeps a list within `RATE_LIMIT`; a refused check changes a list within the bound not at all |
| SlidingWindow.PrunedSubsequenceShorter | backend/app.py:49-52 | pruning away an entry makes the list strictly shorter |
| SlidingWindow.AfterChronological | api/index.py:34-42 | a check at a time no earlier than every entry keeps the list sorted and free of future times |
| SlidingWindow.OldestFirst | api/index.py:52 | in a sorted list `min(ts) == ts[0]`, the entry `retry_after` uses |
| SlidingWindow.AdmittedCall | backend/app.py:60-63 | an admitted call yields the pruned list plus `now`, and `RATE_LIMIT - len` lies in `[0, RATE_LIMIT - 1]` |
| SlidingWindow.RefusedWait | backend/app.py:55-58 | a refused call appends nothing; the wait `min + WINDOW - now` is positive, and at most one window when no entry is later than `now` |
| SlidingWindow.BurstAdmitted | backend/app.py:45-63 | up to `RATE_LIMIT` requests in order, all within one window, are all admitted and all recorded |
| SlidingWindow.BurstRefused | backend/app.py:55-58 | with `RATE_LIMIT` requests inside the window the next one is refused |
| SlidingWindow.WindowElapsed | backend/app.py:49-61 | once every stored request is a window old, the list empties and the request is admitted |
| SlidingWindow.RequestTracker.constructor | backend/app.py:34 | the table starts empty |
| SlidingWindow.RequestTracker.Prune | backend/app.py:49-52 | only the client's entry is replaced, by its pruned list |
| SlidingWindow.RequestTracker.Append | backend/app.py:61 | only the client's entry is replaced, by the list with `now` appended |
| LocalServer.CheckRateLimit | backend/app.py:45-63 | only the client's entry changes, to the checked list; the length bound is kept; admitted iff fewer than `RATE_LIMIT` remain; the value is the requests left in `[0, RATE_LIMIT)`, or a positive wait; when no stored entry is later than `now`, the wait is at most one window and arrival order is kept |
| LocalServer.Countdown | backend/app.py:76-77 | `minutes * 60 + seconds == value` with `0 <= seconds < 60`; a wait of at most one window is at most 60 minutes |
| LocalServer.RateLimitRequired | backend/app.py:66-82 | a request proceeds iff the check admits it; a refusal carries the wait and its minute/second split |
| LocalServer.StatusOf | backend/app.py:312-328 | `limit == RATE_LIMIT`, `used + remaining == RATE_LIMIT`, `reset_in_seconds >= 0` |
| LocalServer.StatusMeaning | backend/app.py:312-328 | `used` counts the requests in the window; the reset is 0 iff there are none, and otherwise the time until the oldest leaves; bounds on `remaining` and on the reset |
| LocalServer.StatusAfterCheck | backend/app.py:304-313 | a snapshot taken right after a check counts the checked list, one more than the pruned list when admitted |
| LocalServer.RateLimitStatus | backend/app.py:301-329 | only the caller's entry changes, to its pruned list (nothing is appended); the answer is the snapshot of the old list |
| LocalServer.FencedBody | backend/app.py:140-142 | the sliced body has no whitespace at either end and is no longer than the reply |
| LocalServer.FencedBodyClosed | backend/app.py:140-142 | with a closing fence at `j`, the body is the stripped text between `start` and `j` |
| LocalServer.FencedBodyUnclosed | backend/app.py:140-142 | with no closing fence, the body is the rest without its last character, stripped |
| LocalServer.FirstOccurrence | backend/app.py:140 | `find` on text that contains `sub` gives its first occurrence |
| LocalServer.ExtractFenced | backend/app.py:139-146 | the extracted text is never longer than the reply, and has no whitespace at its ends whenever the reply holds a fence |
| LocalServer.ExtractJsonClosed | backend/app.py:139-142 | a "```json" fence closed later yields the stripped text strictly between the fences |
| LocalServer.ExtractJsonUnclosed | backend/app.py:139-142 | an unclosed "```json" fence yields everything after it but the last character, stripped |
| LocalServer.ExtractBareClosed | backend/app.py:143-146 | with no "```json", a bare fence closed later yields the stripped text between the fences |
| LocalServer.ExtractBareUnclosed | backend/app.py:143-146 | with no "```json", an unclosed bare fence yields everything after it but the last character, stripped |
| LocalServer.ExtractUnfenced | backend/app.py:139-146 | text without "```" is returned unchanged |
| LocalServer.ExtractJsonBlock | backend/app.py:139-142 | prose without backticks before one fenced JSON block yields the block's body, stripped |
| LocalServer.OverrideDate | backend/app.py:157-159 | a non-empty custom date sets `tanggal` and keeps every other key; with no date the result is unchanged; on a non-object it fails |
| LocalServer.Fallback | backend/app.py:150-155 | an unparsable reply becomes `{isi_chat: text, nomor_telepon: null, tanggal: null}` |
| LocalServer.BuildResult | backend/app.py:148-159 | an unparsable reply gives the fallback record; a non-empty custom date is always the record's `tanggal` |
| LocalServer.ProcessOcr | backend/app.py:100-161 | the key-missing answer is given iff the key is empty |
| ServerlessApi.CheckRateLimit | api/index.py:30-43 | admitted iff fewer than `RATE_LIMIT` remain; `now` is appended once on admission and nothing on refusal; other clients are untouched; the bound is kept, and arrival order too when no stored entry is later than `now` |
| ServerlessApi.ClientId | api/index.py:50 | an empty key gives the remote address; otherwise a non-empty prefix of the key of length `min(len, 8)` |
| ServerlessApi.SharedBucket | api/index.py:50 | keys agreeing on their first eight characters share a bucket |
| ServerlessApi.RateLimit | api/index.py:46-58 | a request proceeds iff admitted; `retry_after` is `WINDOW - (later - ts[0])`, and in ordered lists `ts[0]` is the oldest entry |
| ServerlessApi.RetryAfterBounds | api/index.py:52-55 | with the clock read once, `retry_after` is positive and at most one window |
| ServerlessApi.FirstDisallowed | api/index.py:77-79 | none iff every name is allowed; otherwise the first rejected name in list order |
| ServerlessApi.Validation | api/index.py:65-79 | 401, then "No images provided", then "No images selected", then the first disallowed file; accepted iff every check passes |
| ServerlessApi.ValidateBatch | api/index.py:65-79 | the early-return loop computes exactly `Validation` |
| ServerlessApi.StripFence | api/index.py:115-119 | the result is never longer than the reply, and a fenced reply comes out with no whitespace at its ends |
| ServerlessApi.StripFenceUnfenced | api/index.py:115 | a reply not starting with "```" is kept as it is |
| ServerlessApi.FirstNewline | api/index.py:116 | after "```" and a newline-free info string, the text after the first newline is the body |
| ServerlessApi.StripFenceBlock | api/index.py:114-119 | an opening line, a body and a closing fence yield the body, stripped |
| ServerlessApi.StripFenceUnclosed | api/index.py:115-119 | without a closing fence only the opening line is dropped |
| ServerlessApi.StripFenceOneLine | api/index.py:115-119 | a one-line "```body```" loses just its two fences |
| ServerlessApi.StripFenceOpenOnly | api/index.py:115-119 | a one-line reply opening with "```" and not closed loses its first three characters, then is stripped |
| ServerlessApi.ReadReply | api/index.py:113-132 | each entry keeps its filename; an entry with raw text has no messages, and the raw text is no longer than the reply |
| ServerlessApi.ReadReplyFenced | api/index.py:113-132 | for a fenced reply, the entry holds `parse` of the stripped body and no raw text when it parses, and otherwise `[]` and the stripped body as raw text |
| ServerlessApi.NoCapitalAfterLower | api/index.py:140 | a lower-cased message never contains "API key" |
| ServerlessApi.ErrorAnswer | api/index.py:138-142 | every exception gives 500 "Processing failed. Please try again."; the 401 branch can never be taken |
| ServerlessApi.ReadReplies | api/index.py:86-142 | success iff every image is answered; then one entry per image and reply, in order; an exception gives the 500 answer |
| ServerlessApi.ProcessImage | api/index.py:65-142 | a validation refusal carries its status and error; success iff validation accepts and every image is answered; an exception after validation gives the 500 answer; success lists one entry per image in order |

## Left out

- Flask routing, request and response objects, `jsonify`, CORS, HTTP status plumbing and the
  message texts of the 429 answers: framework I/O. The decisions they wrap are modelled, each with
  its status code where one is decided.
- `genai.configure`, `generate_content` and PIL loading: foreign calls. The model's reply text is a
  parameter. In `ServerlessApi.ProcessImage` it is one reply per image, in order.
- `json.loads`: a library parser, modelled as the function parameter `parse`, with `None` standing
  for `JSONDecodeError`.
- `datetime.now()`: replaced by integer-second parameters.
  - `LocalServer.CheckRateLimit`: this loses the sub-second resolution of `total_seconds()`. On
    whole seconds the float arithmetic and the `int()` truncations make no difference.
  - `ServerlessApi.RateLimit`: it reads the clock twice (`now` and `later`), because `rate_limit`
    calls `datetime.now()` again.
  - `datetime.now()` is naive local time, so it can step back, for example when daylight saving
    time ends. Stored entries are then later than `now`. The wait bound of one window and arrival
    order are promised only when no stored entry is later than `now` (`Chronological(now)`).
    Without that condition a refusal can report a wait longer than one window.
- Concurrency: the table is modelled as single-threaded state shared by the checks of one back-end.
- Saving and removing uploaded files, `secure_filename`, the upload folder and the 16 MB body limit:
  filesystem I/O and library wrappers.
- The single-file checks of the `/api/ocr` endpoint (backend/app.py:187-211): not part of this model.
  Its `allowed_file` call is `Uploads.AllowedFile`.
- The `remaining` count that `/api/ocr` returns (backend/app.py:238): not part of this model. It
  is `RATE_LIMIT - len` of the list as a check leaves it, which `SlidingWindow.AdmittedCall` bounds.
- The `/api/validate-key` and health endpoints, and the local server's classification of exception
  messages (`'api key' in error_message`): they depend on the foreign library's exception text.
- `ServerlessApi.ProcessImage`: an exception is modelled only as an image whose reply is
  `Raised(message)`, with the message a parameter. An exception from `genai.configure` or model
  creation is not modelled separately; it leads to the same 500 answer as a first image that
  raises. The 401 branch of the `except` (api/index.py:140) is modelled as written. It looks for
  "API key", with capitals, in a lower-cased message, so it is never taken (`NoCapitalAfterLower`).
- `LocalServer.ProcessOcr`: a reply that makes the model call throw becomes the key-error or
  generic-error answer, which is not modelled. Setting `tanggal` on a parsed value that is not a
  JSON object raises a `TypeError` inside the same `try`. That case is modelled as `Failed`,
  standing for the generic error answer.
- `PyStr.Lower`: only ASCII case mapping is modelled. This cannot change what `allowed_file`
  accepts. Only two non-ASCII characters lower-case to something holding an ASCII letter:
  - the Kelvin sign becomes `k`, which no extension contains;
  - `İ` becomes `i` followed by a combining dot, which no extension contains.
- The browser-side JavaScript (credential storage, attempt limiter, session tracking): not part of
  this model.
