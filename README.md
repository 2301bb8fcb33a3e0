# Media upload, listing, streaming and deletion of the YVideo server

This project models the album-organised media store behind the server's
upload, listing, stream and delete routes (`server.js`), and proves what
those routes do to the store and give back.

- **Upload filter** (`UploadRules.FileFilter`): multer's `fileFilter`
  accepts a file whose declared MIME type starts with `video/` or `image/`;
  every other type fails with the error `Only images & videos allowed`.
- **Placement and naming** (`UploadRules`): the album is the form's `album`
  field, or `general` when the field is absent or empty; the directory is
  the upload root joined with that album; the stored name is the decimal
  millisecond timestamp, a dash, and the original file name.
- **The store** (`MediaStore.Store`): the upload root as a value. Album
  directories are listed in directory order. Each album lists its file names
  in directory order. Each (album, file) pair holds an opaque byte sequence.
  `mkdirSync`, writing a file, `existsSync`, `unlinkSync` and the two
  `readdirSync` calls become functions on it: `EnsureAlbum`, `PutFile`,
  `Exists`/`Lookup`, `RemoveFile` and `Listing`.
- **The routes** (`Server.MediaServer`): a class whose fields hold the store.
  `Upload` and `Delete` change the fields and state the new store in terms of
  the store functions. `ListMedia` and `StreamMedia` only read; `StreamMedia`
  answers with `Server.Stream` over the current store. The clock
  (`Date.now()`) is the `now` parameter of `Upload`.

The model follows the code, which lacks what a hardened server would have:
- stored names are not unique. Two uploads with the same original name in
  the same millisecond get the same name, and the second overwrites the first
  (`StoredNameCollision`, `PutFileOverwrites`);
- album and file names reach the paths verbatim, with no traversal check
  (`AlbumNotSanitised`);
- deleting a missing file is an error, not an idempotent success (`Delete`);
- there is no size limit.

The functions that do the modelling, by source line:
`UploadRules.FileFilter` is `fileFilter` (server.js:16-25);
`UploadRules.EffectiveAlbum` is the album default (server.js:4);
`UploadRules.AlbumDir` is the `destination` directory (server.js:5);
`UploadRules.StoredName` is `filename` (server.js:10);
`UploadRules.MediaPath` is the path of the stream and delete routes (server.js:50-54, 62);
`MediaStore.EnsureAlbum` is `mkdirSync` (server.js:6);
`MediaStore.PutFile` is the disk storage engine's write into `destination` under `filename` (server.js:2-11);
`MediaStore.AcceptUpload` is both together (server.js:3-11, 29);
`MediaStore.Exists` and `MediaStore.Lookup` are `existsSync` and the read (server.js:55-56);
`MediaStore.RemoveFile` is `unlinkSync` (server.js:61-63);
`MediaStore.Listing` is the `/media` body (server.js:35-43);
`Server.Stream` is the `/media/:album/:file` answer (server.js:55-56).

## Model

| member | source | states |
|---|---|---|
| `UploadRules.FileFilterAcceptsMedia` | server.js:16-25 | the filter accepts a MIME type exactly when it is `video/` or `image/` followed by anything; every other type is rejected with `Only images & videos allowed` |
| `UploadRules.FileFilterExamples` | server.js:17-24 | `application/pdf` and `IMAGE/png` are rejected with the fixed message; `video/mp4` and `image/png` are accepted |
| `UploadRules.EffectiveAlbum` | server.js:4 | the album is never empty; a non-empty submitted album is used as given; an absent or empty one becomes `general` |
| `UploadRules.StoredNameSplits` | server.js:10 | a stored name ends with the original name, and splitting it at the first dash gives back the timestamp and the original name |
| `UploadRules.StoredNameCollision` | server.js:10 | two stored names are equal exactly when both the timestamps and the original names are equal |
| `UploadRules.AlbumNotSanitised` | server.js:4-5 | the directory is the upload root, a separator, then the submitted album verbatim; `../../etc` gives `uploads/../../etc` |
| `UploadRules.MediaPathDeterminesKey` | server.js:50-54 | under the verbatim join, when albums contain no separator, equal path strings mean equal (album, file) pairs |
| `UploadRules.MediaPathCollision` | server.js:50-54 | with a separator inside the album, two different (album, file) pairs give the same path |
| `Strings.Decimal` | server.js:10 | the rendered timestamp is a non-empty string of digits, with a leading zero only for zero |
| `Strings.ParseDecimalOfDecimal` | server.js:10 | reading the rendered timestamp back gives the timestamp |
| `Strings.DecimalInjective` | server.js:10 | two timestamps render the same exactly when they are equal |
| `MediaStore.EnsureAlbumSpec` | server.js:5-6 | recursive `mkdirSync` keeps the store well formed; it adds a new album, empty and at the end of the listing; it changes no existing album or file and is idempotent |
| `MediaStore.PutFileSpec` | server.js:2-11 | writing a file keeps the store well formed; the bytes are readable under (album, file); a new name is appended and an existing one keeps its place; no other album or file changes |
| `MediaStore.AcceptUploadSpec` | server.js:3-11 | an accepted upload lands in its album, created if missing, with exactly the uploaded bytes; no other album's files or contents change |
| `MediaStore.PutFileOverwrites` | server.js:9-10 | writing the same name twice leaves only the second contents |
| `MediaStore.Entries` | server.js:37-43 | the mapped listing has one entry per album, in order, each pairing the album with its files |
| `MediaStore.ListingMatchesStore` | server.js:35-43 | the listing has one entry per album, in directory order, with exactly that album's files; a pair is listed exactly when the file exists |
| `MediaStore.ListingAlbumsDistinct` | server.js:35-43 | no album appears twice in the listing |
| `MediaStore.Without` | server.js:61-63 | removing a name from a listing keeps exactly the other names |
| `MediaStore.WithoutNoDup` | server.js:61-63 | removing a name from a duplicate-free listing keeps it duplicate-free and removes exactly one entry when the name was there |
| `MediaStore.RemoveFileSpec` | server.js:61-63 | unlinking an existing file makes it missing and drops exactly that name from its album; the album stays, and every other (album, file) key keeps its contents |
| `MediaStore.RemoveUndoesPut` | server.js:61-63 | deleting a file written under a new name restores the store as it was before |
| `Server.MediaServer.MakeAlbumDir` | server.js:6 | the new storage root is the old one with the album directory ensured |
| `Server.MediaServer.Destination` | server.js:3-8 | returns the effective album and its directory under the upload root, having created that directory |
| `Server.MediaServer.WriteFile` | server.js:2-11 | the new storage root is the old one with the file written |
| `Server.MediaServer.Unlink` | server.js:61-63 | succeeds exactly when the file exists and then removes it; otherwise fails and changes nothing |
| `Server.MediaServer.Upload` | server.js:14-31 | with no file: redirect, nothing changes; a refused type gives the filter's error and changes nothing; an accepted file is stored as `<now>-<originalname>` in its album, then redirect to `/admin.html` |
| `Server.Stream` | server.js:55-56 | a body exactly when the (album, file) pair exists, and then that file's bytes unchanged; otherwise status 404 and no bytes |
| `Server.MediaServer.StreamMedia` | server.js:49-57 | on the server's current store: a body exactly when the pair exists, carrying that file's bytes unchanged; otherwise status 404 |
| `Server.MediaServer.Delete` | server.js:60-65 | answers success exactly when the pair exists, and then removes only that file; a missing pair is an error and changes nothing |
| `Server.UploadThenStream` | server.js:29-56 | after an accepted upload, the stream answer for its album and stored name is a body of exactly the uploaded bytes, and the listing shows the file under its album |
| `Server.DeleteThenStream` | server.js:49-64 | after a delete, the stream answer for the pair is 404 and the pair is no longer listed |

## Left out

- Role gating (`requireAdmin`, `requireLogin`): it is defined outside `server.js` and is not part of this model. Every route is modelled as if the caller passed the check.
- Express routing, `res.redirect`, `res.json`, `res.sendStatus` and JSON serialisation: responses are datatypes (`UploadResponse`, `StreamResponse`, `DeleteResponse`).
- How the thrown errors are reported: a filter rejection and a failing `unlinkSync` become error values (`UploadError`, `DeleteError`). Express's rendering of those errors as a 500 page is not modelled.
- multer's multipart parsing: the form field `album` is a string or absent. A field sent after the file, or sent twice, reaching `destination` differently is not modelled.
- Byte streaming with `createReadStream().pipe`: a file's content is an opaque byte sequence returned whole and unchanged. Range requests, partial reads and stream errors are not modelled.
- Real filesystem behaviour. The store is an in-memory value, and loading the upload root's initial contents is the constructor's `initial` parameter. Real directory order becomes the store's insertion order. Also not modelled: `readdirSync` throwing on a non-directory entry of the root, `existsSync` being true for a directory, and I/O errors.
- `path.join` normalisation: paths are joined verbatim with `/`. `..`, `.` and separators inside album or file names are kept as text. Express also decodes `%2F` in route parameters, so a file parameter can hold `/`. The store is keyed by the (album, file) pair. That key names one real file only when the album has no separator and neither name is `.` or `..` or contains `/`; `MediaPathDeterminesKey` holds for the verbatim join, not for resolved paths. Nested directories created by an album like `a/b`, and an album `..` that writes outside the upload root, are not modelled.
- `Server.MediaServer.Delete`, `Server.MediaServer.StreamMedia`, `MediaStore.RemoveFileSpec`: their promises hold for the model's (album, file) keys, not for the paths the source resolves. For example, `DELETE /delete/general/..%2Fother%2Fx.png` unlinks `uploads/other/x.png` in the source, while the model answers `DeleteError` and changes nothing; the matching GET streams that other album's file, while the model answers 404. No traversal safety is claimed.
- Concurrency: each request is applied to the store atomically, one after another. multer's asynchronous write, `createReadStream`'s asynchronous read, and their interleaving with other requests are not modelled.
- `Date.now()`: the timestamp is the `now` parameter, taken as a natural number. Its decimal rendering is exact for every value a clock can give (below 10^21).
- `UploadRules.StoredName`, `SplitStoredName`, `MediaStore.Listing`, `Server.MediaServer.ListMedia`: these carry no contract of their own. Their properties are stated by the lemmas listed above.
