# Meme vault: storage keys, responses and the gallery page

This project models the core of a small meme-sharing application in Dafny and proves
properties of the model. The backend is a Spring controller (`MemeController`) over a
service (`MemeService`) that stores uploads in an S3 bucket under the key
`uploads/<uuid>/<original filename>` and streams them back on download. The frontend is a
React page that uploads dropped or chosen images one at a time, keeps a gallery of what was
uploaded, deletes entries by index and saves downloads under a name taken from the key.

Modules:

- `Base`, `Java`, `JavaScript`, `Paths`: Option/Result/byte; the Java `String` behaviour the
  backend relies on (`lastIndexOf`, and string concatenation rendering null as `"null"`), plus
  `indexOf`, which the backend never calls and which serves only the specification-side `ParseKey`;
  JavaScript's `split` with its inverse `Join`; and `IsLastSegment`, a definition of "the part
  after the last separator" that is independent of any way of computing it, with a proof that it
  is unique.
- `S3`: an abstract object store (a map from bucket and key to content type, bytes and size,
  plus a log of the requests received). This is an assumption about S3, not repository code.
  Failures arrive as a `fault` argument, and a missing key fails with a not-found exception.
- `Services`: the key scheme (`UploadKey`, with its inverse `ParseKey`), the shape of a generated
  UUID, and the class `MemeService`, whose `bucketName` and client are `const` fields set once by
  the constructor.
- `Controllers`: the two handlers as total functions from their inputs to a `Response`
  (`UploadResponse`, `DownloadResponse`), the filename and header construction, and the class
  `MemeController` wiring them to the service.
- `Page`: the page's state (`isUploading`, `uploadedMemes`) as the class `MemePage`, with the
  drop filter, sequential uploads, deletion and the download name.
- `ClientServer`: lemmas about how the page and the backend fit together. They rely only on the
  code of both sides.
- `StoreRoundTrip`: lemmas that also rely on the `S3` store assumption (upload-then-download,
  no collisions, a missing key gives 404). They are kept apart from the code-only lemmas.

Outside inputs are parameters: the generated UUID (`memeId`), failures of the input stream and
of S3 (`streamFault`, `fault`), and on the page the outcome of each `fetch` together with
`URL.createObjectURL(file)` and `Date.now()` (`UploadEnv`, `DownloadReply`).

## Model

| member | source | states |
|---|---|---|
| `Java.LastIndexOf` | backend/recipes/src/main/java/com/example/memes/Controllers/MemeController.java:49 | `key.lastIndexOf("/")` is -1 or an index holding the character, and no later index holds it |
| `Controllers.DownloadFilename` | backend/recipes/src/main/java/com/example/memes/Controllers/MemeController.java:49 | the download filename is the key's last '/'-segment: a '/'-free suffix that is the whole key or directly follows a '/' |
| `Controllers.ContentDisposition` | backend/recipes/src/main/java/com/example/memes/Controllers/MemeController.java:52-53 | the header value is `attachment; filename="` then the filename verbatim then a closing quote |
| `Controllers.UploadResponse` | backend/recipes/src/main/java/com/example/memes/Controllers/MemeController.java:25-38 | 400 with "File is empty" exactly for an empty file; 200 with the returned key exactly when the service succeeded; 500 exactly when it threw, with body "Upload failed: " followed by the message (null renders as "null") |
| `Controllers.DownloadResponse` | backend/recipes/src/main/java/com/example/memes/Controllers/MemeController.java:44-60 | 200 exactly when the service returned an object, with Content-Disposition built from the key's filename, Content-Type application/octet-stream and the object's bytes as body; any failure gives 404 with no headers and no body |
| `Controllers.DownloadFilenameRecoversUploadName` | backend/recipes/src/main/java/com/example/memes/Controllers/MemeController.java:49 | for a key built by the service from a filename without '/', the extracted download filename is that filename |
| `Controllers.DownloadFilenameOfUploadKey` | backend/recipes/src/main/java/com/example/memes/Controllers/MemeController.java:49 | for any filename, including null, the extracted name is the last '/'-segment of the rendered filename, so a name with '/' loses its leading segments |
| `Controllers.MemeController.constructor` | backend/recipes/src/main/java/com/example/memes/Controllers/MemeController.java:17-19 | the controller holds the given service |
| `Controllers.MemeController.Upload` | backend/recipes/src/main/java/com/example/memes/Controllers/MemeController.java:25-38 | the response is `UploadResponse` of the service's outcome; an empty file leaves the store and its request log unchanged, so the service is never called; a non-empty file whose input stream fails also leaves them unchanged; otherwise the store receives exactly the service's put |
| `Controllers.MemeController.Download` | backend/recipes/src/main/java/com/example/memes/Controllers/MemeController.java:43-60 | the response is `DownloadResponse` of the get for the caller's key in the configured bucket; the store's objects are unchanged and exactly one get is logged |
| `Services.UploadKey` | backend/recipes/src/main/java/com/example/memes/Services/MemeService.java:32-33 | every key starts with "uploads/", has '/' right after the id, and ends with the rendered filename ("null" for a null filename) |
| `Services.ParseUploadKey` | backend/recipes/src/main/java/com/example/memes/Services/MemeService.java:33 | for an id without '/', the key parses back into exactly that id and the rendered filename |
| `Services.UploadKeysDistinct` | backend/recipes/src/main/java/com/example/memes/Services/MemeService.java:32-33 | two ids without '/' that differ give different keys, whatever the two filenames |
| `Services.UuidKeyShape` | backend/recipes/src/main/java/com/example/memes/Services/MemeService.java:32 | a string in the form of `UUID.toString()` has no '/', so its key has the shape `uploads/<uuid>/<filename>` |
| `Services.UploadOutcome` | backend/recipes/src/main/java/com/example/memes/Services/MemeService.java:30-50 | `upload` returns exactly when neither the input stream nor the put fails, and then returns the key; a stream failure is the one thrown |
| `Services.MemeService.constructor` | backend/recipes/src/main/java/com/example/memes/Services/MemeService.java:22-28 | the client and bucket name are the given ones; both are `const`, so they never change afterwards |
| `Services.MemeService.Upload` | backend/recipes/src/main/java/com/example/memes/Services/MemeService.java:30-50 | the outcome is `UploadOutcome`; when the stream opens, exactly one put is sent with the configured bucket, the same key that is returned, the file's content type and size unchanged; when it does not, the store is not called |
| `Services.MemeService.Download` | backend/recipes/src/main/java/com/example/memes/Services/MemeService.java:52-60 | exactly one get is sent, for the caller's key unchanged in the configured bucket, and its outcome is returned |
| `S3.S3Client.PutObject` | backend/recipes/src/main/java/com/example/memes/Services/MemeService.java:41-47 | store assumption: a put is logged, and unless it fails the object (content type, bytes, size) is stored under its bucket and key |
| `S3.S3Client.GetObject` | backend/recipes/src/main/java/com/example/memes/Services/MemeService.java:59 | store assumption: a get is logged and returns the stored object, the injected fault, or the not-found exception |
| `JavaScript.Split` | frontend/app/page.tsx:112 | `split("/")` yields at least one part and no part holds the separator |
| `JavaScript.JoinSplit` | frontend/app/page.tsx:112 | joining the parts with the separator gives the key back |
| `JavaScript.SplitSingle` | frontend/app/page.tsx:112 | there is a single part exactly when the key has no '/' |
| `JavaScript.SplitLastSegment` | frontend/app/page.tsx:112 | the part `pop()` returns is the key's last '/'-segment |
| `Page.ImageFiles` | frontend/app/page.tsx:80 | the drop filter keeps a file exactly when it was dropped and its type starts with "image/" |
| `Page.ImageFilesConcat` | frontend/app/page.tsx:80 | the filter keeps the original order: it distributes over concatenation |
| `Page.ImageFilesSingle` | frontend/app/page.tsx:80 | a single file is kept exactly when it is an image |
| `Page.AfterUploadPrepends` | frontend/app/page.tsx:47-68 | a successful reply (ok) puts the new entry, keyed by the reply text, at index 0 with all previous entries after it in order; a non-ok reply or a thrown error leaves the gallery unchanged |
| `Page.AfterUploadsNewestFirst` | frontend/app/page.tsx:91-93 | after uploads one after another, the gallery is the successful entries newest first, followed by the previous gallery |
| `Page.WithoutIndexRemovesExactly` | frontend/app/page.tsx:127 | deleting removes exactly the entry at the index and keeps the others in order; an index out of range leaves the list unchanged |
| `Page.DownloadNameIsLastSegment` | frontend/app/page.tsx:112 | the "meme.jpg" fallback is used exactly when the key is empty or ends in '/'; otherwise the saved name is the key's non-empty last '/'-segment (which may itself be "meme.jpg") |
| `Page.HandleDownload` | frontend/app/page.tsx:105-124 | a thrown fetch gives the failure notice; any reply, whatever its status, saves the body under the download name |
| `Page.MemePage.constructor` | frontend/app/page.tsx:19-20 | the page starts idle with an empty gallery |
| `Page.MemePage.UploadFile` | frontend/app/page.tsx:36-72 | `isUploading` is true while the request is awaited and false afterwards whatever the outcome; the gallery becomes `AfterUpload` of the reply |
| `Page.MemePage.UploadAll` | frontend/app/page.tsx:100-102 | files are handed to `uploadFile` one at a time in list order, each awaited while busy, and the gallery is `AfterUploads` of the replies; an empty list changes no state |
| `Page.MemePage.HandleDrop` | frontend/app/page.tsx:74-96 | only the image files are uploaded, in drop order, each while `isUploading` is true and idle afterwards; with no image file nothing is attempted and no state changes |
| `Page.MemePage.HandleFileInput` | frontend/app/page.tsx:98-103 | every chosen file is uploaded in order, without the image filter, each while `isUploading` is true; an empty selection changes no state |
| `Page.MemePage.HandleDelete` | frontend/app/page.tsx:126-127 | the gallery becomes the index filter of the previous one; nothing else changes |
| `ClientServer.DownloadNamesAgree` | frontend/app/page.tsx:112 | the page's download name equals the backend's extracted filename whenever that is non-empty, and is "meme.jpg" otherwise |
| `ClientServer.GalleryFollowsUploadReply` | frontend/app/page.tsx:47-58 | given the backend's upload response, the gallery gains an entry carrying the storage key exactly when the file was non-empty and stored; 400 and 500 leave it unchanged |
| `ClientServer.SavedUnderOriginalName` | frontend/app/page.tsx:112 | a file uploaded under a non-empty name without '/' is saved back by the page under that same name |
| `StoreRoundTrip.UploadThenDownload` | backend/recipes/src/main/java/com/example/memes/Services/MemeService.java:30-60 | store assumption: uploading a non-empty file and downloading its key gives 200 with the same bytes, the stored content type and size are the file's, and a '/'-free filename comes back in Content-Disposition |
| `StoreRoundTrip.MissingKeyIsNotFound` | backend/recipes/src/main/java/com/example/memes/Controllers/MemeController.java:57-58 | store assumption: a key never stored is answered 404 with no body |
| `StoreRoundTrip.UploadsDoNotCollide` | backend/recipes/src/main/java/com/example/memes/Services/MemeService.java:32-33 | store assumption: two uploads with different UUIDs, even of the same filename, both stay retrievable with their own content |
| `StoreRoundTrip.UploadThenDownloadThroughController` | backend/recipes/src/main/java/com/example/memes/Controllers/MemeController.java:25-60 | the same round trip through the controller and service objects, from their contracts alone: 200 with the generated key, the stored object carries the file's content type, bytes and size, the download gives 200 with the same bytes and octet-stream, and a '/'-free filename comes back in Content-Disposition |

## Left out

- `S3Config.java` (credentials and region wiring) and `next.config.mjs` (rewrites, origins, body-size limit): configuration with no logic.
- The real S3 SDK: `putObject`/`getObject` are replaced by the abstract store of module `S3`. Streaming through `InputStreamResource`, lazy reads and network behaviour are not modelled; a download body is the stored bytes.
- UUID generation: the id is a parameter. `Services.MemeService.Upload` does not require it to be in UUID form; the lemmas that need it ask for `IsUuidString` or for the absence of '/'.
- Spring routing, multipart parsing, the 400 Spring itself returns for a missing `file` or `key` parameter, and HTTP serialisation. This includes the `text/plain` content type Spring's converters add to the upload replies, which the handlers do not set.
- Page.HandleDownload: `encodeURIComponent` on the key and the backend's decoding of the query are taken to give the key back unchanged. The DOM anchor click, `createObjectURL` and `revokeObjectURL` are not modelled.
- Page.MemePage.UploadFile: a rejection of `response.text()` is folded into `Rejected`, like a rejected `fetch`. Toasts, `Date.now()` and `URL.createObjectURL` are not modelled; the latter two are parameters.
- `isDragging`, `view`, the drag-over and drag-leave handlers and all rendering: presentation state with no bearing on the gallery or the uploads.
- `Error`s: both handlers catch `java.lang.Exception`, so a thrown `Error` would escape the 500 and 404 mappings; the model has only `Exception`s.
- Concurrency: the handlers share no mutable state, and the page's uploads are awaited one after another.
- Java strings are UTF-16 code-unit sequences and JavaScript strings likewise; both are modelled as `seq<char>`, which is exact for the '/'-based operations used here.
