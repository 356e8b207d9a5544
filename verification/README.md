# yt-mp3 relay: a Dafny model of its core

The relay is a small Express server (`app.js`). It takes a video URL and pulls
the video ID out of it. It then asks a third-party conversion API for an MP3
download link. That request is made with a pool of API keys: a key that is
rate limited (429) or out of quota (403) hands over to the next one. The job is
kept in an in-memory registry, which a status endpoint reports on. A stream
endpoint relays the file under a file name made safe from the title.

This project models that core as pure Dafny functions, with the properties the
code promises proved about them:

- `options.dfy`: the `Option` type.
- `js_text.dfy` (`JsText`): JavaScript's white-space class (`\s`, `trim`),
  the word class `\w`, and `String.prototype.trim`.
- `keys.dfy` (`Keys`): how the key pool is loaded. The `API_KEYS` setting is
  split on commas and each piece is trimmed. `split` and `join` are inverse.
- `rotation.dfy` (`Rotation`): `fetchWithRotation`.
  - The upstream's answers are a parameter: `outcomes[i]` is how the call
    made with `keys[i]` ends.
  - The function `FetchWithRotation` folds over the pool and returns the
    result together with the calls made.
  - `FetchWithRotationLoop` is the `for` loop as the code writes it, proved
    equal to the fold.
- `video_id.dfy` (`VideoId`): the ID regular expression, written as a
  leftmost-match search with its capture group.
- `handlers.dfy` (`Handlers`): the registry and the `POST /api/start` and
  `GET /api/status` handlers. `Start` returns its reply and the new
  registry; `Status` only reads the registry.
- `relay.dfy` (`Relay`): title sanitisation, the `Content-Disposition`
  header, and `POST /api/stream` up to the first relayed byte. The regex
  replacement over white-space runs is also given as a scanning method,
  proved equal to the recursive definition.

An empty key pool does not fail with a configuration error:

- The loop never runs and throws `lastError`, which is still `undefined`.
- The start handler's `catch` then reads `e.message` of `undefined`. That
  throws a second time, inside the `catch`, so the handler itself never
  sends a reply.
- The model has `Threw(Undefined)` and `StartReply.Unanswered` for this case.
- A pool loaded from the setting is never empty, because `"".split(',')` is
  `[""]`. `Rotation.LoadedPoolRotation` proves that `undefined` is then
  never thrown.

The `i` flag of `/[^\w\s]/gi` is not modelled as a separate step. Without
the `u` flag, no character inside `\w` or `\s` case-folds to one outside them,
so the flag changes nothing.

## Model

| member | source | states |
|---|---|---|
| JsText.IsSpace | app.js:131 | Defines `\s`, which is also the set of characters `trim` removes at lines 15 and 33: the ECMAScript white-space and line-terminator characters. |
| JsText.IsWordChar | app.js:131 | Defines `\w` without the `u` flag: ASCII letters, digits and `_`. |
| JsText.Trim | app.js:15 | `trim` returns the infix of the key that follows its leading white space. Only white space follows it, and it neither starts nor ends with white space. |
| JsText.TrimIdempotent | app.js:15-33 | Trimming an already trimmed key changes nothing, so the second `trim` on each key (at line 33) leaves the loaded key as it is. |
| Keys.Split | app.js:15 | `split(',')` gives one more piece than there are commas, and no piece contains a comma. |
| Keys.JoinSplit | app.js:15 | Joining the pieces of a split with the separator gives back the original setting. |
| Keys.SplitPrefix | app.js:15 | Splitting `a + b` where `a` has no comma glues `a` onto the first piece of `b`. |
| Keys.SplitJoin | app.js:15 | Comma-free keys joined with commas and split again give back the same pool, in order. |
| Keys.ParseKeys | app.js:15 | The loaded pool has one key per comma-separated piece, so it is never empty. Every key is already trimmed and holds no comma. |
| Keys.ParseKeysJoin | app.js:15 | A pool of trimmed, comma-free keys written into the setting with commas between them loads back as exactly that pool. |
| Rotation.RequestFor | app.js:27-37 | Defines the call made with one key: `GET <apiUrl>/dl?id=<videoId>` with the trimmed key and host headers, at most 10 redirects and a 10000 ms timeout. |
| Rotation.Rotates | app.js:43 | Defines the errors that move on to the next key: those with an HTTP response whose status is 429 or 403. |
| Rotation.FirstStop | app.js:39-47 | The index of the first attempt that is neither 429 nor 403, or the pool size. Every earlier attempt hands over to the next key. |
| Rotation.FirstStopUnique | app.js:39-47 | The deciding attempt is unique: any index with those two properties is `FirstStop`. |
| Rotation.RotateFrom | app.js:24-50 | The fold from key `i` on. Every attempt except the last one hands over. The last attempt settles the result, which is its answer or its error. A 429/403 error ends the loop only when the pool is exhausted. With no attempt left, `lastError` is thrown. |
| Rotation.CallsGrow | app.js:24-38 | Trying one more key appends exactly one call, the one made with that key. |
| Rotation.FetchWithRotation | app.js:22-51 | At most one call per key, in pool order. Call `j` is the request made with key `j`. |
| Rotation.RotationDecision | app.js:22-51 | Suppose some attempt is neither a 429/403 error nor the end of the pool. Then the first such attempt decides: calls stop right after it, and its answer or error is the result. Otherwise every key is called, and the last error is thrown, or `undefined` for an empty pool. |
| Rotation.RotationStopsAt | app.js:24-47 | If key `i` is the first that does not hand over, then exactly the calls with keys `0..i` are made, and outcome `i` decides. |
| Rotation.RotationRunsOut | app.js:40-50 | If every key gets 429/403, one call per key is made and `throw lastError` throws the last error, or `undefined` with no keys. |
| Rotation.FetchWithRotationLoop | app.js:22-51 | The `for`/`try`/`catch` loop, which returns, rethrows or continues, gives the same result and the same calls as the fold. |
| Rotation.SuccessStopsRotation | app.js:29-45 | After keys that all hand over, an answer from key `k` is returned after exactly `k + 1` calls. No later key is tried. |
| Rotation.FatalErrorStopsAtOnce | app.js:43-47 | An error from the first key that is not 429/403 is rethrown after one call. |
| Rotation.ExhaustedPoolThrowsLastError | app.js:40-50 | If every key hands over, every key is tried and the last key's error is thrown, not the first key's. |
| Rotation.EmptyPoolThrowsUndefined | app.js:23-50 | An empty pool makes no call and throws `undefined`. |
| Rotation.SingleKeyPassesThrough | app.js:24-50 | With one key, the single call's answer or error passes straight through. |
| Rotation.RequestsDifferOnlyInKey | app.js:27-37 | Any two calls of one rotation agree on method, URL `<apiUrl>/dl?id=<videoId>`, host header, 10 redirects and 10000 ms timeout. Call `j` carries key `j`, trimmed. |
| Rotation.LoadedPoolRotation | app.js:15-50 | With the pool loaded from the setting, `undefined` is never thrown, and each call's key header is the loaded key unchanged. |
| VideoId.IsIdChar | app.js:63 | Defines the ID class `[0-9A-Za-z_-]`. |
| VideoId.CaptureAt | app.js:63-66 | The capture group of a match is an 11-character ID over `[0-9A-Za-z_-]`. |
| VideoId.MatchesAt | app.js:63 | Defines a match of the pattern at a position: one of `v=`, `/` or `youtu.be/` there, followed by eleven characters of `[0-9A-Za-z_-]`. |
| VideoId.AlternativesExclusive | app.js:63 | At most one of `v=`, `/` and `youtu.be/` occurs at any position, so backtracking cannot change the capture. |
| VideoId.MatchStartsWithPrefixChar | app.js:63 | A match starts at a `v`, a `/` or a `y`. |
| VideoId.CharInMatch | app.js:63 | Inside a match, each position holds the alternative's literal character or an ID character. |
| VideoId.SearchFrom | app.js:63 | The search from position `p` returns a position where the pattern matches and no earlier one does, or `None` if the pattern matches nowhere from `p` on. |
| VideoId.Extract | app.js:63-66 | `match(...)[1]` is `None` exactly when the pattern matches nowhere. Otherwise it is a video ID, captured at the leftmost match. |
| VideoId.LeftmostIsExtracted | app.js:63-66 | The leftmost match decides the extracted ID. |
| VideoId.ExtractIgnoresTail | app.js:63 | Appending anything to a URL that has an ID leaves its ID unchanged, since nothing after the eleven characters is read. |
| VideoId.WatchUrl | app.js:63 | `https://www.youtube.com/watch?v=<id>` yields `<id>` for every video ID. |
| VideoId.ShortUrl | app.js:63 | `https://youtu.be/<id>` yields `<id>` for every video ID. |
| VideoId.WatchUrlExample | app.js:63-66 | The watch-page URL of `dQw4w9WgXcQ` yields `dQw4w9WgXcQ`. |
| VideoId.ShortUrlExample | app.js:63-66 | The short URL of `dQw4w9WgXcQ` yields `dQw4w9WgXcQ`. |
| VideoId.TooShortForId | app.js:63-64 | A URL shorter than 12 characters has no ID, so the start handler rejects it. |
| Handlers.JobTitle | app.js:73 | `title \|\| 'audio'` is never empty. A non-empty title is kept; a missing or empty one becomes `audio`. |
| Handlers.Start | app.js:57-89 | The start handler's replies and registry effect, in both directions. 400 `URL required` exactly for a falsy URL; 400 `Invalid YouTube URL` exactly for a URL with no ID. A non-string truthy URL gives 500. For a URL with an ID, the rotation's answer gives a start with that ID, the answer's link and its defaulted title; a thrown upstream error gives 500 with `e.message`; `undefined` gives no reply. A start sets exactly its own registry entry, and every other reply leaves the registry unchanged. |
| Handlers.Status | app.js:92-108 | `ready` exactly for an ID in the registry, with progress 1000 and the stored link. Anything else gets `waiting` with progress 0 and no link. |
| Handlers.StartThenStatusIsReady | app.js:76-103 | After a successful start, the status of its ID is ready, with the link the start replied with. |
| Handlers.StartKeepsOtherStatuses | app.js:76-106 | A start changes the status of no other ID. |
| Handlers.FirstKeyAnswersEndToEnd | app.js:57-103 | If the first key answers, a URL with an ID starts a job with that answer's link and title, and its status is then ready. |
| Relay.StripNonWord | app.js:131 | `replace(/[^\w\s]/gi, '')` keeps only word and white-space characters and never lengthens the title. |
| Relay.StripNonWordDistributes | app.js:131 | Stripping distributes over concatenation. |
| Relay.StripNonWordKeepsKept | app.js:131 | Text of word and white-space characters is left as it is. |
| Relay.StripNonWordDropsAll | app.js:131 | Text with no word or white-space character is deleted entirely. |
| Relay.CollapseFrom | app.js:131 | The collapse from position `i` contains no white space and is no longer than the rest of the input. |
| Relay.CollapseSpaces | app.js:131 | `replace(/\s+/g, '_')` leaves no white space and never lengthens the text. |
| Relay.CollapseAtSpace | app.js:131 | At a white-space character, the collapse writes one `_` and continues after the whole run. |
| Relay.CollapseAtOther | app.js:131 | At any other character, the collapse copies it. |
| Relay.ReplaceSpaceRuns | app.js:131 | The engine's left-to-right scan, which writes `_` at the start of each run and skips the rest, gives the same text as the definition. |
| Relay.CollapseKeepsSpaceFree | app.js:131 | Text without white space passes through the collapse unchanged. |
| Relay.LettersSkipsSpaceRun | app.js:131 | A run of white space contributes nothing to the text's non-space, non-underscore content. |
| Relay.CollapseKeepsLetters | app.js:131 | The collapse changes only white space and underscores. Every other character is kept, in order. |
| Relay.CollapseLeavesWordChars | app.js:131 | Collapsing stripped text leaves only word characters. |
| Relay.Scrub | app.js:131 | Strip then collapse leaves only `[A-Za-z0-9_]` and never lengthens the title. |
| Relay.ScrubIdempotent | app.js:131 | Scrubbing a scrubbed title changes nothing. |
| Relay.SafeTitle | app.js:131 | The safe title holds only `[A-Za-z0-9_]` and is no longer than the defaulted title. A falsy title gives `audio`. |
| Relay.DefaultTitleIsSafe | app.js:131 | The default `audio` is left unchanged by the sanitiser. |
| Relay.SafeTitleStable | app.js:131 | Sanitising a non-empty safe title again gives it back. |
| Relay.PunctuationOnlyTitle | app.js:131 | A punctuation-only title sanitises to the empty string, not to `audio`. Sanitising that result again gives `audio`. |
| Relay.ExampleTitleStrip | app.js:131 | `Rick Astley - Never Gonna Give You Up!` strips to `Rick Astley  Never Gonna Give You Up`. |
| Relay.ExampleTitleCollapse | app.js:131 | That stripped title collapses to `Rick_Astley_Never_Gonna_Give_You_Up`. |
| Relay.ExampleTitle | app.js:131 | `Rick Astley - Never Gonna Give You Up!` sanitises to `Rick_Astley_Never_Gonna_Give_You_Up`. |
| Relay.ContentDisposition | app.js:132 | Defines the header value `attachment; filename="<safe title>.mp3"`. |
| Relay.HeaderQuotesOnlyDelimit | app.js:131-132 | For any title, the header's only double quotes are the two around the file name, so the name cannot break out of them. |
| Relay.HeaderNamesFile | app.js:132 | A client reading the file name back from the header gets the safe title followed by `.mp3`. |
| Relay.StreamHead | app.js:111-154 | A failed download gives 500 with its message. A non-string truthy title gives 500 too. Otherwise the reply relays, with the attachment header for the safe title and `audio/mpeg`; a falsy title names the file `audio.mp3`. |

## Left out

- Express set-up, routing, static files, body parsing and the index page
  (app.js:1-12, 156-158) are not modelled. They are framework glue.
- Reading `process.env` (app.js:15-17) is left out. The model takes the
  setting string and the `apiUrl`/`apiHost` values as parameters.
  - An unset `API_KEYS` crashes at start-up.
  - An unset `apiHost` makes `apiHost.trim()` throw inside the loop.
  - Neither case is modelled.
- All console logging is left out. It has no effect on replies.
- The HTTP calls made with axios are parameters, not computations. The
  rotation takes one `Attempt` per key, and the stream takes whether opening
  the file succeeded.
  - An error without a response is `NoResponse`.
  - The answer's payload is reduced to its `link` and its optional string
    `title`. A non-string `title` or a missing `link` is not modelled.
- The stream request's own headers and its 60000 ms timeout (app.js:117-129)
  are not modelled. They belong to the download call, which `FileFetch`
  stands for.
- The piping of the body and the stream and response error handlers
  (app.js:137-148) are not modelled. They are I/O after the headers are set.
- `res.headersSent` in the stream handler's `catch` is not modelled. Nothing
  before the headers are set can have sent a reply.
- Relay.StreamHead: a failed download is reported by its error message.
  The `Error fetching file: ` prefix the reply adds is not part of the
  model's value.
- Handlers.Start and Relay.StreamHead: a `TypeError` is recorded as
  `NotAFunction` with the name of the missing method, not as the engine's
  message text.
- Handlers.Status: a query `id` that is not a single string (an array, say)
  is modelled as `None`, which the registry never holds.
- Concurrency between requests and the registry's unbounded growth are not
  modelled. There is no eviction in the code either.
- Handlers.Start: `StartReply.Unanswered` stands for the second throw
  inside the `catch`. The handler is `async`, so that throw rejects its
  promise. What happens next depends on the framework and runtime. Express 4
  leaves the rejection unhandled, and a recent Node.js then ends the whole
  process, losing every request in flight. Express 5 hands it to its default
  error handler, which answers 500. The model does not choose between these.
- Strings are sequences of Unicode scalar values, while JavaScript strings
  are sequences of UTF-16 code units. Lone surrogates cannot be written, and
  the length bounds count scalar values. Every character class involved lies
  in the Basic Multilingual Plane, so the proved properties are unaffected.
