/** The media routes of the server over a storage root held in memory.
    `MediaServer` holds what the filesystem holds under `uploadDir`; the
    route handlers for upload and delete change it, the listing and the
    stream only read it. The clock is the `now` parameter of `Upload`. */
module Server {
  import opened Options
  import opened UploadRules
  import opened MediaStore

  /** Where a finished upload redirects. */
  const AdminPage: string := "/admin.html"

  /** The file part multer hands to the storage engine. */
  datatype IncomingFile = IncomingFile(originalname: string, mimetype: string, data: Bytes)

  /** `res.redirect(...)`, or the error that ends the request. */
  datatype UploadResponse = Redirect(location: string) | UploadError(message: string)

  /** `res.sendStatus(code)`, or the file's bytes piped into the response. */
  datatype StreamResponse = Status(code: nat) | Body(data: Bytes)

  /** `res.json({ success: true })`, or the failure thrown by `unlinkSync`. */
  datatype DeleteResponse = Success | DeleteError

  const NotFound: nat := 404

  /** The answer of `GET /media/:album/:file` over a store: 404 and no bytes for a
      missing pair, otherwise the file's bytes unchanged. */
  function Stream(s: Store, album: string, file: string): (r: StreamResponse)
    ensures r.Body? <==> Exists(s, album, file)
    ensures r.Status? ==> r.code == NotFound
    ensures r.Body? ==> Lookup(s, album, file) == Some(r.data)
  {
    if (album, file) !in s.blobs then Status(NotFound) else Body(s.blobs[(album, file)])
  }

  class MediaServer {
    const uploadDir: string
    var albums: seq<string>
    var names: map<string, seq<string>>
    var blobs: map<(string, string), Bytes>

    /** The storage root as a value. */
    function Snapshot(): Store
      reads this
    {
      Store(albums, names, blobs)
    }

    ghost predicate Valid()
      reads this
    {
      WellFormed(Snapshot())
    }

    /** A server started over an upload root whose current contents are `initial`. */
    constructor (uploadDir: string, initial: Store)
      requires WellFormed(initial)
      ensures Valid() && Snapshot() == initial && this.uploadDir == uploadDir
    {
      this.uploadDir := uploadDir;
      albums, names, blobs := initial.albums, initial.names, initial.blobs;
    }

    /** `fs.mkdirSync(dir, { recursive: true })` for an album directory. */
    method MakeAlbumDir(album: string)
      requires Valid()
      modifies this
      ensures Valid()
      ensures Snapshot() == EnsureAlbum(old(Snapshot()), album)
    {
      EnsureAlbumSpec(Snapshot(), album);
      if album !in names {
        albums := albums + [album];
        names := names[album := []];
      }
    }

    /** multer's `destination` callback: pick the album, create its directory, give its path. */
    method Destination(albumField: Option<string>) returns (dir: string, album: string)
      requires Valid()
      modifies this
      ensures Valid()
      ensures album == EffectiveAlbum(albumField) && dir == AlbumDir(uploadDir, album)
      ensures Snapshot() == EnsureAlbum(old(Snapshot()), album)
    {
      album := EffectiveAlbum(albumField);
      dir := AlbumDir(uploadDir, album);
      MakeAlbumDir(album);
    }

    /** The disk storage engine writing the uploaded bytes into the album directory. */
    method WriteFile(album: string, file: string, data: Bytes)
      requires Valid() && album in names
      modifies this
      ensures Valid()
      ensures Snapshot() == PutFile(old(Snapshot()), album, file, data)
    {
      PutFileSpec(Snapshot(), album, file, data);
      if file !in names[album] {
        names := names[album := names[album] + [file]];
      }
      blobs := blobs[(album, file) := data];
    }

    /** `fs.unlinkSync(path)`: fails, changing nothing, when there is no such file. */
    method Unlink(album: string, file: string) returns (ok: bool)
      requires Valid()
      modifies this
      ensures Valid()
      ensures ok == Exists(old(Snapshot()), album, file)
      ensures ok ==> album in old(names) && Snapshot() == RemoveFile(old(Snapshot()), album, file)
      ensures !ok ==> Snapshot() == old(Snapshot())
    {
      ok := (album, file) in blobs;
      if ok {
        RemoveFileSpec(Snapshot(), album, file);
        names := names[album := Without(names[album], file)];
        blobs := blobs - {(album, file)};
      }
    }

    /** `POST /upload`: the filter runs first; a refused file ends the request with the
        filter's error before any directory is made; an accepted one is stored under
        `<now>-<originalname>` in its album; with no file the route still redirects. */
    method Upload(albumField: Option<string>, file: Option<IncomingFile>, now: nat) returns (r: UploadResponse)
      requires Valid()
      modifies this
      ensures Valid()
      ensures file.None? ==> r == Redirect(AdminPage) && Snapshot() == old(Snapshot())
      ensures file.Some? && FileFilter(file.value.mimetype).Reject? ==>
                r == UploadError(FilterError) && Snapshot() == old(Snapshot())
      ensures file.Some? && FileFilter(file.value.mimetype) == Accept ==>
                r == Redirect(AdminPage) &&
                Snapshot() == AcceptUpload(old(Snapshot()), EffectiveAlbum(albumField),
                                           StoredName(now, file.value.originalname), file.value.data)
    {
      if file.None? {
        return Redirect(AdminPage);
      }
      var f := file.value;
      match FileFilter(f.mimetype)
      case Reject(message) =>
        r := UploadError(message);
      case Accept =>
        var dir, album := Destination(albumField);
        var name := StoredName(now, f.originalname);
        WriteFile(album, name, f.data);
        r := Redirect(AdminPage);
    }

    /** `GET /media`: one entry per album directory, in directory order. */
    function ListMedia(): seq<AlbumEntry>
      reads this
      requires Valid()
    {
      Listing(Snapshot())
    }

    /** `GET /media/:album/:file`: 404 for a missing file, else its bytes unchanged. */
    function StreamMedia(album: string, file: string): (r: StreamResponse)
      reads this
      ensures r.Body? <==> Exists(Snapshot(), album, file)
      ensures r.Status? ==> r.code == NotFound
      ensures r.Body? ==> Lookup(Snapshot(), album, file) == Some(r.data)
    {
      Stream(Snapshot(), album, file)
    }

    /** `DELETE /delete/:album/:file`: removes that one file and answers success,
        or fails with what `unlinkSync` throws when the file is missing. */
    method Delete(album: string, file: string) returns (r: DeleteResponse)
      requires Valid()
      modifies this
      ensures Valid()
      ensures r == Success <==> Exists(old(Snapshot()), album, file)
      ensures r == Success ==> album in old(names) && Snapshot() == RemoveFile(old(Snapshot()), album, file)
      ensures r == DeleteError ==> Snapshot() == old(Snapshot())
    {
      var ok := Unlink(album, file);
      r := if ok then Success else DeleteError;
    }
  }

  /** End to end over the store: after an accepted upload, streaming its album and
      stored name gives back exactly the uploaded bytes, and the listing shows it. */
  lemma UploadThenStream(s: Store, albumField: Option<string>, f: IncomingFile, now: nat)
    requires WellFormed(s) && FileFilter(f.mimetype) == Accept
    ensures var album := EffectiveAlbum(albumField);
            var name := StoredName(now, f.originalname);
            var t := AcceptUpload(s, album, name, f.data);
            && WellFormed(t)
            && Stream(t, album, name) == Body(f.data)
            && exists i :: 0 <= i < |Listing(t)| && Listing(t)[i].album == album && name in Listing(t)[i].files
  {
    var album := EffectiveAlbum(albumField);
    var name := StoredName(now, f.originalname);
    AcceptUploadSpec(s, album, name, f.data);
    ListingMatchesStore(AcceptUpload(s, album, name, f.data), album, name);
  }

  /** After a delete, the deleted pair streams as missing and is no longer listed. */
  lemma DeleteThenStream(s: Store, album: string, file: string)
    requires WellFormed(s) && Exists(s, album, file)
    ensures album in s.names
    ensures var t := RemoveFile(s, album, file);
            && Stream(t, album, file) == Status(NotFound)
            && !exists i :: 0 <= i < |Listing(t)| && Listing(t)[i].album == album && file in Listing(t)[i].files
  {
  }
}
