/** The upload configuration of the server: the MIME-type filter, the album
    a file goes to, the name it is stored under, and the paths built from
    client-supplied album and file names (joined as given, never sanitised). */
module UploadRules {
  import opened Options
  import opened Strings

  /** The message of the error the filter raises. */
  const FilterError: string := "Only images & videos allowed"

  /** The album used when the form carries none. */
  const DefaultAlbum: string := "general"

  datatype FilterDecision = Accept | Reject(message: string)

  /** multer's `fileFilter`: accept on a `video/` or `image/` MIME prefix, otherwise fail. */
  function FileFilter(mimetype: string): FilterDecision {
    if StartsWith(mimetype, "video/") || StartsWith(mimetype, "image/") then Accept
    else Reject(FilterError)
  }

  /** The filter accepts exactly the types of the form `video/...` or `image/...`,
      and every rejection carries the fixed message. */
  lemma FileFilterAcceptsMedia(mimetype: string)
    ensures FileFilter(mimetype) == Accept <==>
            exists rest :: mimetype == "video/" + rest || mimetype == "image/" + rest
    ensures FileFilter(mimetype) != Accept ==> FileFilter(mimetype) == Reject(FilterError)
  {
    if StartsWith(mimetype, "video/") {
      assert mimetype == "video/" + mimetype[6..];
    } else if StartsWith(mimetype, "image/") {
      assert mimetype == "image/" + mimetype[6..];
    }
  }

  /** A PDF is refused with the filter's message; an MP4 video and a PNG image pass. */
  lemma FileFilterExamples()
    ensures FileFilter("application/pdf") == Reject(FilterError)
    ensures FileFilter("video/mp4") == Accept
    ensures FileFilter("image/png") == Accept
    ensures FileFilter("IMAGE/png") == Reject(FilterError)
  {
    assert "video/mp4"[..6] == "video/";
    assert "image/png"[..6] == "image/";
    assert "IMAGE/png"[..6][0] != "image/"[0];
    assert "application/pdf"[..6][0] != "video/"[0];
    assert "application/pdf"[..6][0] != "image/"[0];
  }

  /** `req.body.album || 'general'` for a form field that is absent or a string:
      the submitted album when it is non-empty, the default album otherwise. */
  function EffectiveAlbum(field: Option<string>): (album: string)
    ensures album != ""
    ensures field.Some? && field.value != "" ==> album == field.value
    ensures field.None? || field.value == "" ==> album == DefaultAlbum
  {
    match field
    case Some(a) => if a != "" then a else DefaultAlbum
    case None => DefaultAlbum
  }

  /** multer's `filename`: the decimal timestamp, a dash, then the original name. */
  function StoredName(timestamp: nat, originalName: string): string {
    Decimal(timestamp) + "-" + originalName
  }

  /** Inverse of `StoredName`: the digits before the first dash and the rest. */
  function SplitStoredName(name: string): Option<(nat, string)> {
    var i := IndexOf(name, '-');
    if i == |name| || i == 0 || !AllDigits(name[..i]) then None
    else Some((ParseDecimal(name[..i]), name[i + 1..]))
  }

  /** A stored name ends with the original name and gives back both of its parts. */
  lemma StoredNameSplits(timestamp: nat, originalName: string)
    ensures SplitStoredName(StoredName(timestamp, originalName)) == Some((timestamp, originalName))
    ensures var name := StoredName(timestamp, originalName);
            |originalName| < |name| && name[|name| - |originalName|..] == originalName
  {
    var digits := Decimal(timestamp);
    var name := StoredName(timestamp, originalName);
    DigitsExclude(digits, '-');
    IndexOfAfterPrefix(digits, '-', originalName);
    assert name == digits + ['-'] + originalName;
    assert name[..|digits|] == digits;
    assert name[|digits| + 1..] == originalName;
    ParseDecimalOfDecimal(timestamp);
  }

  /** Two uploads get the same stored name exactly when they carry the same
      timestamp and the same original name: names are not unique per se. */
  lemma StoredNameCollision(t1: nat, o1: string, t2: nat, o2: string)
    ensures StoredName(t1, o1) == StoredName(t2, o2) <==> t1 == t2 && o1 == o2
  {
    StoredNameSplits(t1, o1);
    StoredNameSplits(t2, o2);
  }

  /** `path.join(dir, segment)`, modelled as plain concatenation with a separator:
      `..` and inner separators are kept as they are. */
  function JoinPath(dir: string, segment: string): string {
    dir + "/" + segment
  }

  /** multer's `destination`: the directory of an album under the upload root. */
  function AlbumDir(uploadDir: string, album: string): string {
    JoinPath(uploadDir, album)
  }

  /** The path that the stream and delete routes open for an album and a file. */
  function MediaPath(uploadDir: string, album: string, file: string): string {
    JoinPath(AlbumDir(uploadDir, album), file)
  }

  /** The album text reaches the path unchanged, so `../../etc` leaves the upload root. */
  lemma AlbumNotSanitised(uploadDir: string, album: string)
    ensures var dir := AlbumDir(uploadDir, EffectiveAlbum(Some(album)));
            album != "" ==> dir[..|uploadDir| + 1] == uploadDir + "/" && dir[|uploadDir| + 1..] == album
    ensures AlbumDir("uploads", EffectiveAlbum(Some("../../etc"))) == "uploads/../../etc"
  {
  }

  /** Under the verbatim join, a media path determines its album and file when the
      albums contain no separator. Real `path.join` also resolves `.` and `..`,
      which this statement does not cover. */
  lemma {:induction false} MediaPathDeterminesKey(uploadDir: string, a1: string, f1: string, a2: string, f2: string)
    requires '/' !in a1 && '/' !in a2
    ensures MediaPath(uploadDir, a1, f1) == MediaPath(uploadDir, a2, f2) <==> a1 == a2 && f1 == f2
  {
    if MediaPath(uploadDir, a1, f1) == MediaPath(uploadDir, a2, f2) {
      var k := |uploadDir| + 1;
      var t1 := a1 + ['/'] + f1;
      var t2 := a2 + ['/'] + f2;
      assert MediaPath(uploadDir, a1, f1) == uploadDir + "/" + t1;
      assert MediaPath(uploadDir, a2, f2) == uploadDir + "/" + t2;
      assert t1 == MediaPath(uploadDir, a1, f1)[k..];
      assert t2 == MediaPath(uploadDir, a2, f2)[k..];
      IndexOfAfterPrefix(a1, '/', f1);
      IndexOfAfterPrefix(a2, '/', f2);
      assert a1 == t1[..|a1|] && f1 == t1[|a1| + 1..];
      assert a2 == t2[..|a2|] && f2 == t2[|a2| + 1..];
    }
  }

  /** With a separator inside the album, two different keys share one path. */
  lemma MediaPathCollision()
    ensures MediaPath("uploads", "a/b", "c") == MediaPath("uploads", "a", "b/c")
  {
  }
}
