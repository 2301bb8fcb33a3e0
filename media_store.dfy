/** The upload root as the routes see it: album directories in directory
    order, the file names inside each album in directory order, and the bytes
    held under each (album, file) pair. The filesystem calls of the server
    (`mkdirSync`, writing a file, `existsSync`, `unlinkSync`, `readdirSync`)
    are transition and query functions on this value. */
module MediaStore {
  import opened Options

  newtype byte = x: int | 0 <= x < 256

  type Bytes = seq<byte>

  datatype Store = Store(
    albums: seq<string>,                      // entries of the upload root
    names: map<string, seq<string>>,          // entries of each album directory
    blobs: map<(string, string), Bytes>)      // contents of each file

  predicate NoDup<T(==)>(s: seq<T>) {
    forall i, j :: 0 <= i < j < |s| ==> s[i] != s[j]
  }

  /** Directory listings name each entry once, every album listed has a
      directory, and exactly the listed files have contents. */
  ghost predicate WellFormed(s: Store) {
    && NoDup(s.albums)
    && (forall a :: a in s.names <==> a in s.albums)
    && (forall a :: a in s.names ==> NoDup(s.names[a]))
    && (forall k :: k in s.blobs <==> k.0 in s.names && k.1 in s.names[k.0])
  }

  /** The empty upload root, one a server may start from. */
  const Empty: Store := Store([], map[], map[])

  /** A server may start from the empty upload root. */
  lemma EmptyWellFormed()
    ensures WellFormed(Empty)
  {
  }

  /** `existsSync(path.join(uploadDir, album, file))` for a file entry. */
  predicate Exists(s: Store, album: string, file: string) {
    (album, file) in s.blobs
  }

  /** The bytes under (album, file), if that file exists. */
  function Lookup(s: Store, album: string, file: string): Option<Bytes> {
    if (album, file) in s.blobs then Some(s.blobs[(album, file)]) else None
  }

  /** `mkdirSync(dir, { recursive: true })`: a new album directory is appended,
      an existing one is left alone. */
  function EnsureAlbum(s: Store, album: string): Store {
    if album in s.names then s
    else Store(s.albums + [album], s.names[album := []], s.blobs)
  }

  /** Writing a file into an existing album directory: a new name is appended,
      an existing name keeps its place and has its contents replaced. */
  function PutFile(s: Store, album: string, file: string, data: Bytes): Store
    requires album in s.names
  {
    var files := s.names[album];
    Store(s.albums,
          s.names[album := if file in files then files else files + [file]],
          s.blobs[(album, file) := data])
  }

  /** An accepted upload: create the album directory on demand, then write the file. */
  function AcceptUpload(s: Store, album: string, file: string, data: Bytes): Store {
    PutFile(EnsureAlbum(s, album), album, file, data)
  }

  /** The entries of `xs` other than `x`, in their order. */
  function Without(xs: seq<string>, x: string): (r: seq<string>)
    ensures forall y :: y in r <==> y in xs && y != x
    ensures |r| <= |xs|
  {
    if xs == [] then [] else (if xs[0] == x then [] else [xs[0]]) + Without(xs[1..], x)
  }

  /** `unlinkSync`: the file leaves its album's listing and its contents are dropped;
      the album directory itself stays. */
  function RemoveFile(s: Store, album: string, file: string): Store
    requires album in s.names
  {
    Store(s.albums, s.names[album := Without(s.names[album], file)], s.blobs - {(album, file)})
  }

  datatype AlbumEntry = AlbumEntry(album: string, files: seq<string>)

  /** `albums.map(album => ({ album, files: readdirSync(...) }))`. */
  function Entries(albums: seq<string>, names: map<string, seq<string>>): (r: seq<AlbumEntry>)
    requires forall a :: a in albums ==> a in names
    ensures |r| == |albums|
    ensures forall i :: 0 <= i < |r| ==> r[i].album == albums[i] && r[i].files == names[albums[i]]
  {
    if albums == [] then [] else [AlbumEntry(albums[0], names[albums[0]])] + Entries(albums[1..], names)
  }

  /** The body of `GET /media`. */
  function Listing(s: Store): seq<AlbumEntry>
    requires forall a :: a in s.albums ==> a in s.names
  {
    Entries(s.albums, s.names)
  }

  // ----- Lemmas about the sequence helpers -----

  lemma NoDupCons(h: string, t: seq<string>)
    requires h !in t && NoDup(t)
    ensures NoDup([h] + t)
  {
  }

  /** Removing an entry from a duplicate-free listing removes exactly one element. */
  lemma {:induction false} WithoutNoDup(xs: seq<string>, x: string)
    requires NoDup(xs)
    ensures NoDup(Without(xs, x))
    ensures x in xs ==> |Without(xs, x)| == |xs| - 1
    ensures x !in xs ==> Without(xs, x) == xs
  {
    if xs != [] {
      var t := xs[1..];
      assert NoDup(t) by {
        forall i, j | 0 <= i < j < |t| ensures t[i] != t[j] {
          assert t[i] == xs[i + 1] && t[j] == xs[j + 1];
        }
      }
      assert xs[0] !in t by {
        forall j | 0 <= j < |t| ensures t[j] != xs[0] {
          assert t[j] == xs[j + 1];
        }
      }
      WithoutNoDup(t, x);
      assert xs == [xs[0]] + t;
      if xs[0] != x {
        NoDupCons(xs[0], Without(t, x));
      }
    }
  }

  /** Removing a name that was just appended gives back the listing before it. */
  lemma {:induction false} WithoutAppended(xs: seq<string>, x: string)
    requires x !in xs
    ensures Without(xs + [x], x) == xs
  {
    if xs == [] {
      assert Without([x], x) == [] + Without([], x);
    } else {
      assert (xs + [x])[1..] == xs[1..] + [x];
      WithoutAppended(xs[1..], x);
      assert xs == [xs[0]] + xs[1..];
    }
  }

  // ----- Lemmas about the store operations -----

  /** Creating an album directory keeps the store well formed, adds the album at
      the end of the listing when it is new, is idempotent, and changes no file. */
  lemma EnsureAlbumSpec(s: Store, album: string)
    requires WellFormed(s)
    ensures var t := EnsureAlbum(s, album);
            && WellFormed(t)
            && album in t.names && t.blobs == s.blobs
            && (album in s.names ==> t == s)
            && (album !in s.names ==> t.albums == s.albums + [album] && t.names[album] == [])
            && (forall b :: b in s.names ==> b in t.names && t.names[b] == s.names[b])
            && EnsureAlbum(t, album) == t
  {
  }

  /** Writing a file keeps the store well formed, makes its bytes readable
      under (album, file), and leaves every other album and every other file as it was. */
  lemma PutFileSpec(s: Store, album: string, file: string, data: Bytes)
    requires WellFormed(s) && album in s.names
    ensures var t := PutFile(s, album, file, data);
            && WellFormed(t)
            && Lookup(t, album, file) == Some(data)
            && t.albums == s.albums && t.names.Keys == s.names.Keys
            && t.names[album] == (if file in s.names[album] then s.names[album] else s.names[album] + [file])
            && (forall b :: b in s.names && b != album ==> t.names[b] == s.names[b])
            && (forall a, f :: (a, f) != (album, file) ==> Lookup(t, a, f) == Lookup(s, a, f))
  {
  }

  /** An accepted upload lands in its album: the album exists afterwards (created
      when it did not), the file is there with exactly the uploaded bytes, and no
      other album's file list or file contents change. */
  lemma AcceptUploadSpec(s: Store, album: string, file: string, data: Bytes)
    requires WellFormed(s)
    ensures var t := AcceptUpload(s, album, file, data);
            && WellFormed(t)
            && album in t.albums
            && Exists(t, album, file) && Lookup(t, album, file) == Some(data)
            && (album !in s.names ==> t.albums == s.albums + [album] && t.names[album] == [file])
            && (album in s.names ==> t.albums == s.albums)
            && (forall b :: b in s.names && b != album ==> t.names[b] == s.names[b])
            && (forall a, f :: (a, f) != (album, file) ==> Lookup(t, a, f) == Lookup(s, a, f))
  {
    EnsureAlbumSpec(s, album);
    PutFileSpec(EnsureAlbum(s, album), album, file, data);
  }

  /** Writing the same name twice leaves only the second contents: the first file is overwritten. */
  lemma PutFileOverwrites(s: Store, album: string, file: string, d1: Bytes, d2: Bytes)
    requires album in s.names
    ensures PutFile(PutFile(s, album, file, d1), album, file, d2) == PutFile(s, album, file, d2)
  {
  }

  /** Removing an existing file keeps the store well formed, makes it missing, shortens
      its album's listing by exactly that name and leaves every other file in every album as it was. */
  lemma RemoveFileSpec(s: Store, album: string, file: string)
    requires WellFormed(s) && Exists(s, album, file)
    ensures album in s.names
    ensures var t := RemoveFile(s, album, file);
            && WellFormed(t)
            && !Exists(t, album, file) && Lookup(t, album, file) == None
            && t.albums == s.albums && t.names.Keys == s.names.Keys
            && t.names[album] == Without(s.names[album], file)
            && |t.names[album]| == |s.names[album]| - 1
            && (forall b :: b in s.names && b != album ==> t.names[b] == s.names[b])
            && (forall a, f :: (a, f) != (album, file) ==> Lookup(t, a, f) == Lookup(s, a, f))
  {
    WithoutNoDup(s.names[album], file);
  }

  /** Deleting a file that was just written under a new name restores the store. */
  lemma RemoveUndoesPut(s: Store, album: string, file: string, data: Bytes)
    requires WellFormed(s) && album in s.names && !Exists(s, album, file)
    ensures RemoveFile(PutFile(s, album, file, data), album, file) == s
  {
    var files := s.names[album];
    assert file !in files;
    var p := PutFile(s, album, file, data);
    assert p.names[album] == files + [file];
    WithoutAppended(files, file);
    var t := RemoveFile(p, album, file);
    assert t.names == s.names[album := files];
    assert t.blobs == s.blobs[(album, file) := data] - {(album, file)};
    assert t.blobs == s.blobs;
  }

  /** The listing has one entry per album, in directory order, each pairing the album
      with exactly its files; a pair is listed exactly when the file exists. */
  lemma ListingMatchesStore(s: Store, album: string, file: string)
    requires WellFormed(s)
    ensures var l := Listing(s);
            && |l| == |s.albums|
            && (forall i :: 0 <= i < |l| ==> l[i] == AlbumEntry(s.albums[i], s.names[s.albums[i]]))
            && (Exists(s, album, file) <==> exists i :: 0 <= i < |l| && l[i].album == album && file in l[i].files)
  {
  }

  /** No album appears twice in the listing. */
  lemma ListingAlbumsDistinct(s: Store)
    requires WellFormed(s)
    ensures var l := Listing(s);
            forall i, j :: 0 <= i < j < |l| ==> l[i].album != l[j].album
  {
  }
}
