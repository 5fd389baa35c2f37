# TrimWizard API handlers in Dafny

This project models the three Next.js API routes of TrimWizard, an image
"trimmer" that shrinks uploaded pictures by a random margin.

- **Upload** (`src/pages/api/upload.js`). Multer stores every uploaded file as
  `tmp/uploads/<Date.now()>-<originalname>`. `cropImage` then draws a width
  reduction in [40, 60] and a height reduction in [40, 70]. If both remaining
  dimensions are positive, it keeps the top-left rectangle of that size and
  writes it to `tmp/cropped/cropped-<basename>`. Otherwise, or on any error,
  it resolves to null. The handler collects the non-null results in upload
  order and adds them to a zip under their basenames. It answers 200 with a
  download link once the zip stream closes, 204 when nothing was cropped, 500
  when the multipart middleware fails, and 405 for any method but POST.
- **Download** (`src/pages/api/download.js`). The handler reads `sessionId` and
  `fileName` from the query. It answers 400 when either is missing or empty.
  Otherwise it looks up `path.join('/tmp/cropped', sessionId, fileName)`: 404
  if that path does not exist, else the file is streamed as `image/jpeg` with
  `Content-Disposition: attachment; filename=<fileName>`.
- **Sheets** (`src/pages/api/sheets.js`). A POST whose `email` is truthy is
  answered with whether some row of column A equals that address, ignoring
  letter case. Every failure inside `checkEmailExists` becomes one error
  message.

The library calls are replaced by their answers:

- Jimp's decoding becomes a bitmap size or a failure.
- Each `Math.random()` becomes a draw in [0, 1).
- Each `Date.now()` becomes the millisecond it returned.
- The image write becomes a success flag.
- The zip stream becomes the outcome "closed" or "error".
- The file system becomes the set of paths that exist.
- The Google Sheets API becomes "authentication failed", "fetch failed" or the
  rows it returned.

The model assumes that an uploaded file's `originalname` holds no `/`.
Multer's multipart parser keeps only the last part of the file name the
client sends, so no directory part reaches `file.originalname`. The lemmas
about stored names (`Upload.StoredFilenamePlain`, `Upload.StoredPathShape`,
`Upload.CroppedImageNames`) require it.

Node's `path.posix` functions `join`, `normalize` and `basename` are modelled
in `posix_path.dfy`, on the `/`-separated segments of a path. They decide
where uploads and crops land and which file the download handler opens.

Files:

- `wrappers.dfy`: `Option`.
- `text.dfy`: module `Text`, with `split` on one character and the dropping of empty pieces. Both the path functions and the query-string parser use it.
- `posix_path.dfy`: module `PosixPath`.
- `upload.dfy`: module `Upload`. It contains the pure `cropImage` and naming
  rules, the handler's two loops as methods, and the response choice.
- `download.dfy`: module `Download`.
- `links.dfy`: module `Links`. It models how a URL's query string becomes
  `req.query`, and shows that the link returned by the upload handler is
  always refused by the download handler.
- `sheets.dfy`: module `Sheets`.

Three behaviours of the code are easy to miss:

- **Zip entry names include the timestamp.** The upload is stored under
  `<timestamp>-<originalname>`, and `cropImage` takes the basename of that
  stored path. So a crop and its zip entry are named
  `cropped-<timestamp>-<originalname>` (`Upload.CroppedImageNames`).
- **The download link is refused.** The upload handler's link
  `/api/download?file=cropped-images.zip` carries neither `sessionId` nor
  `fileName`, so the download handler answers it with 400 whatever exists
  (`Links.UploadLinkRefused`). The zip itself is written to the relative path
  `./tmp/cropped-images.zip`, and no link the upload handler returns reaches it.
- **The download path is not confined.** The download handler performs no
  containment check. A `fileName` with `..` segments climbs out of
  `/tmp/cropped`: for example, `../../../etc/passwd` under any plain session
  id resolves to `/etc/passwd`, which is streamed if it exists
  (`Download.TraversalEscapes`, `Download.TraversalServed`, `Download.PasswdServed`). Without `..`
  segments, the path stays inside the root (`Download.ConfinedWithoutClimbing`).

## Model

| member | source | states |
|---|---|---|
| Upload.GetRandomInt | src/pages/api/upload.js:24-26 | for min <= max, the drawn integer lies in [min, max] |
| Upload.GetRandomIntReaches | src/pages/api/upload.js:24-26 | every integer of [min, max] is drawn for some value of `Math.random()` |
| Upload.DrawnReductions | src/pages/api/upload.js:34-35 | the width reduction lies in [40, 60] and the height reduction in [40, 70], and every value of those ranges can be drawn |
| Upload.CropGeometry | src/pages/api/upload.js:34-37 | the new size keeps the drawn reductions and is the old size less 40 to 60 columns and less 40 to 70 rows |
| Upload.CropAlwaysFits | src/pages/api/upload.js:34-39 | the guard passes for every possible draw exactly when the image is wider than 60 and taller than 70 |
| Upload.CropNeverFits | src/pages/api/upload.js:34-39 | the guard fails for every possible draw exactly when the image is at most 40 wide or at most 40 tall |
| Upload.OutputPath | src/pages/api/upload.js:41 | the crop's path is `path.join('./tmp/cropped', 'cropped-' + basename)`; its shape is stated by `Upload.OutputPathShape` |
| Upload.OutputPathShape | src/pages/api/upload.js:41 | the crop of any image is written directly in "tmp/cropped", as "cropped-" followed by the input's basename, and that is also the crop's basename |
| Upload.CropImage | src/pages/api/upload.js:28-52 | null for an unreadable file; a write only when decoding succeeded and both new dimensions are positive; nothing written when the image is too small; the crop is the rectangle at (0, 0) of size (W - wr, H - hr), which lies inside the image and is strictly smaller in both dimensions; a path is returned exactly when the write succeeds |
| Upload.DecimalString | src/pages/api/upload.js:18 | `Date.now()` is written as a non-empty string of decimal digits |
| Upload.DecimalRoundTrip | src/pages/api/upload.js:18 | reading the written timestamp back as a number gives the timestamp |
| Upload.StoredFilename | src/pages/api/upload.js:17-19 | a stored name starts with a decimal digit and ends with the original name, which it is longer than |
| Upload.StoredFilenameInjective | src/pages/api/upload.js:17-19 | two uploads get the same stored name only when they have the same millisecond and the same original name |
| Upload.StoredFilenamePlain | src/pages/api/upload.js:17-19 | a stored name is a single plain path segment: it starts with a digit and holds no separator |
| Upload.StoredPathShape | src/pages/api/upload.js:11-19 | multer's `file.path` is "tmp/uploads/" followed by the stored name, and its basename is the stored name |
| Upload.Kept | src/pages/api/upload.js:66-74 | the loop pushes at most one path per `cropImage` result; its contents are stated by `Upload.KeptMembers` and `Upload.KeptAppend` |
| Upload.CroppedImages | src/pages/api/upload.js:66-74 | `croppedImages` holds at most one path per uploaded file |
| Upload.KeptAppend | src/pages/api/upload.js:66-74 | the paths kept for a batch are those kept for its first part followed by those kept for the rest, so a failed file never stops the files after it |
| Upload.KeptMembers | src/pages/api/upload.js:66-74 | a path is in `croppedImages` exactly when some file's `cropImage` resolved to it |
| Upload.KeptEmpty | src/pages/api/upload.js:66-74 | `croppedImages` is empty exactly when every `cropImage` call resolved to null |
| Upload.KeptAll | src/pages/api/upload.js:66-74 | when every call resolved to a path, `croppedImages` holds all of them in upload order |
| Upload.NothingCropped | src/pages/api/upload.js:66-76 | `croppedImages` is empty exactly when no file's crop was saved |
| Upload.LargeImagesAllCropped | src/pages/api/upload.js:34-74 | when every image decodes, is wider than 60, is taller than 70 and is written without error, `croppedImages` holds every file's output path, in upload order |
| Upload.ArchiveEntries | src/pages/api/upload.js:93-95 | one entry per kept path, in the same order, each read from that path and named without a separator |
| Upload.CroppedImageNames | src/pages/api/upload.js:93-95 | every kept path is "tmp/cropped/cropped-" followed by the stored name of a file whose crop was saved, and its zip entry name is that path's basename, "cropped-" followed by the stored name |
| Upload.Response | src/pages/api/upload.js:56-108 | 405 exactly for methods other than POST; 500 exactly when the middleware fails; 204 "No images cropped." exactly when nothing was cropped; 200 with the download link exactly when something was cropped and the zip output closed; no reply exactly when the archiver failed |
| Upload.LargeBatchGetsLink | src/pages/api/upload.js:76-86 | a non-empty batch of large, readable, writable images whose zip output closes is answered with 200 and the download link |
| Upload.CropAll | src/pages/api/upload.js:66-74 | the loop leaves in `croppedImages` exactly the non-null results of `cropImage`, in upload order |
| Upload.AddEntries | src/pages/api/upload.js:93-95 | the `forEach` adds one entry per kept path, in order, each named after the path's basename |
| Upload.Handle | src/pages/api/upload.js:56-108 | the handler's reply is the one `Upload.Response` chooses; the zip receives exactly the entries of the kept paths when the request is a parsed POST, and nothing otherwise |
| PosixPath.Split | src/pages/api/download.js:11 | splitting a path on '/' gives at least one piece, and no piece holds a separator |
| PosixPath.Normalize | src/pages/api/download.js:11 | an absolute path stays absolute; the result is a fixed point by `PosixPath.NormalizeIdempotent` |
| PosixPath.JoinPaths | src/pages/api/download.js:11 | `path.join` drops empty arguments and normalises the rest joined by '/'; stated by `PosixPath.JoinPathsTwo` and `Download.JoinPathsThree` |
| PosixPath.Basename | src/pages/api/upload.js:31 | a basename never holds a separator; `PosixPath.BasenameOfChild` gives the basename of `dir/name` |
| PosixPath.JoinSplit | src/pages/api/download.js:11 | joining the pieces of a split with '/' gives back the string |
| PosixPath.SplitJoin | src/pages/api/download.js:11 | splitting a '/'-join of separator-free pieces gives back the pieces |
| PosixPath.SplitAppend | src/pages/api/download.js:11 | the pieces of `a/b` are the pieces of `a` followed by those of `b` |
| PosixPath.ResolveAppend | src/pages/api/download.js:11 | normalising segments in two parts is the same as normalising them at once |
| PosixPath.ResolvePlain | src/pages/api/download.js:11 | segments other than "", "." and ".." are kept unchanged, in order |
| PosixPath.ResolveExtends | src/pages/api/download.js:11 | without a ".." segment, normalisation never removes what the stack already holds |
| PosixPath.ResolveNormal | src/pages/api/download.js:11 | normalisation always leaves plain segments, preceded (only in a relative path) by a run of ".." |
| PosixPath.NormalizeRender | src/pages/api/download.js:11 | normalising an already normal path gives it back |
| PosixPath.NormalizeIdempotent | src/pages/api/download.js:11 | normalising twice is the same as normalising once |
| PosixPath.JoinPathsTwo | src/pages/api/upload.js:41 | `path.join(a, b)` of two non-empty strings is the normalisation of `a/b` |
| PosixPath.JoinDotDirChild | src/pages/api/upload.js:41 | joining a plain name onto "./d1/.../dk" gives "d1/.../dk/name", whose basename is the name |
| PosixPath.BasenameOfChild | src/pages/api/upload.js:94 | the basename of `dir/name` is `name` for a non-empty name without separator |
| Download.Handle | src/pages/api/download.js:4-22 | the request method is never read; 400 exactly when `sessionId` or `fileName` is missing or empty, whatever exists; an uncaught error when either is an array, or when the file exists and its name is no valid header value; 404 exactly when the joined path does not exist; a stream exactly when both values are single non-empty strings, the joined path exists and the file name is a valid header value, and then the file at the joined path is streamed as `image/jpeg` with `attachment; filename=` followed by the raw file name |
| Download.FilePath | src/pages/api/download.js:11 | the looked-up path is always absolute, whatever the query holds |
| Download.HeaderSafePrefixed | src/pages/api/download.js:18 | the Content-Disposition value is a valid header value exactly when the file name is |
| Download.JoinPathsThree | src/pages/api/download.js:11 | `path.join` of the root and two non-empty values is the normalisation of `root/sessionId/fileName` |
| Download.ConfinedWithoutClimbing | src/pages/api/download.js:11 | when neither query value holds a ".." segment, the looked-up path is "/tmp/cropped" or lies below it |
| Download.StreamedInsideRoot | src/pages/api/download.js:11-21 | a streamed file lies inside "/tmp/cropped" when neither query value holds ".." |
| Download.TraversalEscapes | src/pages/api/download.js:11 | no containment check is made: a plain session id and a file name "../../../" followed by any relative path look up that path from "/" |
| Download.TraversalServed | src/pages/api/download.js:11-21 | the file a traversal reaches is streamed whenever it exists and the file name is a valid header value |
| Download.PasswdReachable | src/pages/api/download.js:11 | the file name "../../../etc/passwd" looks up "/etc/passwd" |
| Download.PasswdServed | src/pages/api/download.js:11-21 | if "/etc/passwd" exists, it is streamed to anyone who asks for it under a plain session id |
| Links.Pairs | src/pages/api/download.js:5 | no key of a parsed query pair holds '&' or '=' |
| Links.Lookup | src/pages/api/download.js:5 | a single value, or each value of a repeated key, comes from a pair naming that key; a repeated key has at least two values |
| Links.QueryOf | src/pages/api/download.js:5 | `req.query.sessionId` and `req.query.fileName` for a URL; stated by `Links.OtherKeyOnly` |
| Links.Before | src/pages/api/download.js:5 | the key of a query pair is a prefix of it and holds no '=' |
| Links.BeforeAfter | src/pages/api/download.js:5 | a piece holding '=' is its key, '=', then its value |
| Links.ValuesOfMembers | src/pages/api/download.js:5 | a value is given for a key exactly when the query holds that pair |
| Links.LookupAbsent | src/pages/api/download.js:5 | a key is absent from `req.query` exactly when no pair names it |
| Links.PairsOfOne | src/pages/api/download.js:5 | a query string with one `key=value` piece yields exactly that pair |
| Links.OtherKeyOnly | src/pages/api/download.js:5-9 | a URL whose only query pair has another key gives neither a session id nor a file name |
| Links.UploadLinkRefused | src/pages/api/upload.js:84 | the link returned by the upload handler is answered by the download handler with 400 "Session ID or file name missing", whatever files exist |
| Sheets.LowerChar | src/pages/api/sheets.js:27 | an ASCII capital is lowered by 32 code points and every other character is kept |
| Sheets.Lower | src/pages/api/sheets.js:27 | lower-casing keeps the length of the string |
| Sheets.LowerIdempotent | src/pages/api/sheets.js:27 | lower-casing twice is lower-casing once |
| Sheets.ScanRows | src/pages/api/sheets.js:27 | a match is reported only for a string email that some row matches; a throw only when some row has no first cell or the email is not a string |
| Sheets.ScanNonString | src/pages/api/sheets.js:27 | an email that is not a string makes `.some` throw at the first row, and is never touched when there are no rows |
| Sheets.ScanFound | src/pages/api/sheets.js:27 | when every row has a first cell, `.some` finds the email exactly when some row's first cell equals it after lower-casing both, and never throws |
| Sheets.ScanThrows | src/pages/api/sheets.js:27 | `.some` throws exactly when a row without a first cell comes before any matching row |
| Sheets.ScanSameLower | src/pages/api/sheets.js:27 | two emails with the same lower-case form get the same answer |
| Sheets.ScanIgnoresCase | src/pages/api/sheets.js:27 | the answer for an email equals the answer for its lower-case form |
| Sheets.Authenticate | src/pages/api/sheets.js:5-16 | authentication fails exactly when the client cannot be obtained, with "Google Sheets authentication failed" |
| Sheets.CheckEmailExists | src/pages/api/sheets.js:18-32 | absent values count as no rows, so the answer is false; true or false exactly as `.some` finds the email or not; an authentication failure, a fetch failure or a thrown `.some` all reject with "Failed to check email existence", never with another message |
| Sheets.Handle | src/pages/api/sheets.js:34-50 | 405 with `Allow: POST` and "Method <m> Not Allowed" exactly for other methods; 500 for a null body; 400 "Email is required" exactly for a falsy email; 200 with `exists` exactly when the check resolves; 500 with the check's message exactly when it rejects |
| Sheets.ScanReachesMatch | src/pages/api/sheets.js:27 | `.some` finds a matching row when every row before it has a first cell, whatever rows follow it |
| Sheets.ListedEmailFound | src/pages/api/sheets.js:26-42 | an address listed in column A, in any letter case, is answered with 200 and `exists: true`, provided no row without a first cell comes before it |
| Sheets.AuthFailureHidden | src/pages/api/sheets.js:12-31 | an authentication failure reaches the client as 500 "Failed to check email existence" |
| Sheets.MissingEmailIgnoresSheet | src/pages/api/sheets.js:37-40 | the answer to a falsy email does not depend on the sheet, which is never asked |

## Left out

- File I/O and libraries. Jimp's decoding, pixel cropping and encoding, archiver's zip format, multer's multipart parsing, and `fs` (`mkdirSync`, `existsSync`, streams) are not modelled. They are represented by their answers only, as described above. What the download stream sends is not modelled, and neither is a stream error such as a directory opened as a file.
- Upload.GetRandomInt: `Math.random()` is a real number in [0, 1). IEEE double rounding of the product is not modelled.
- Concurrency and scheduling. The `./tmp/cropped-images.zip` path is shared by concurrent requests, and the `await` points interleave. Both are left out. The model treats each request on its own, with the zip outcome given as an input.
- Upload.Handle: the 200 reply is sent from the output stream's `close` event, after the handler has returned. The model returns it as the handler's reply. An archiver error is rethrown inside an event listener and nothing replies; the model shows this as "no reply" and does not model the process crash that may follow.
- Upload.StoredFilenamePlain: requires an `originalname` without '/'. Multer's parser strips the directory part of the client's file name, and the parser is not modelled.
- Upload.StoredPathShape: requires an `originalname` without '/', for the same reason.
- Upload.CroppedImageNames: requires every `originalname` to be without '/', for the same reason.
- Query-string decoding. Next.js percent-decodes keys and values and turns '+' into a space. The model splits on '&' and on the first '=' only, and ignores any `#` fragment.
- Sheets.Handle: the text of a TypeError raised by the JavaScript engine (for a `null` body) is not modelled; the model records only that the error message is sent with status 500. Bodies that are not objects (a string, a number) are modelled as bodies without an `email`.
- Sheets.LowerChar: only ASCII letters are lower-cased. Unicode case mapping is not modelled.
- Console logging, the Google spreadsheet id and range, and the service-account key file are not modelled beyond the constants.
- `src/libs/sheets.js` is not part of this model: it only builds request objects for the Google API.
- `src/app/api/routes.js` is not part of this model: it is not valid JavaScript, so it has no defined behaviour.
- The UI pages and components are not part of this model. They render forms and previews and hold none of the request logic.
