/** The upload guard in front of post creation: the file-type filter,
    built on Node's `path.extname`, and the 5 MB size limit. */
module Uploads {
  import opened JsText

  /** The size limit of an uploaded file: 5 * 1024 * 1024 bytes. */
  const MaxUploadBytes: nat := 5 * 1024 * 1024

  /** An uploaded file as the file filter receives it: the client's
      file name, the MIME type as the multipart parser hands it on (that
      parser lower-cases the declared type, so `mimeType` is the lower-case
      value), the size, and the name it is stored under. */
  datatype Upload = Upload(originalName: string, mimeType: string, size: nat, storedName: string)

  /** Index of the last occurrence of `c` in `s`, or -1. */
  function LastIndex(s: string, c: char): (r: int)
    ensures -1 <= r < |s|
    ensures r >= 0 ==> s[r] == c
    ensures forall j :: r < j < |s| ==> s[j] != c
  {
    if s == [] then -1
    else if s[|s| - 1] == c then |s| - 1
    else LastIndex(s[..|s| - 1], c)
  }

  /** The path without its trailing slashes. */
  function StripTrailingSlashes(p: string): (r: string)
    ensures |r| <= |p| && r == p[..|r|]
    ensures r == [] || r[|r| - 1] != '/'
    ensures forall i :: |r| <= i < |p| ==> p[i] == '/'
  {
    if p != [] && p[|p| - 1] == '/' then StripTrailingSlashes(p[..|p| - 1]) else p
  }

  /** The last segment of the path, trailing slashes aside: the longest
      suffix of the stripped path without '/'. */
  function Basename(path: string): (r: string)
    ensures '/' !in r
    ensures var p := StripTrailingSlashes(path);
            && |r| <= |p| && r == p[|p| - |r|..]
            && (|r| < |p| ==> p[|p| - |r| - 1] == '/')
  {
    var p := StripTrailingSlashes(path);
    var k := LastIndex(p, '/') + 1;
    assert forall j :: 0 <= j < |p[k..]| ==> p[k..][j] == p[k + j];
    p[k..]
  }

  /** A segment without an extension: empty, without a '.' past its first
      character, or "..". */
  predicate NoExtension(b: string) {
    b == [] || '.' !in b[1..] || b == ".."
  }

  /** `r` is a proper tail of `b` starting at a '.' and holding no
      other '.'. */
  predicate DotTail(r: string, b: string) {
    0 < |r| < |b| && r == b[|b| - |r|..] && r[0] == '.' && '.' !in r[1..]
  }

  /** The extension of one path segment: the part from its last '.' on;
      empty when the segment has no '.', when its only '.' is its first
      character, or when the segment is "..". */
  function SegmentExt(b: string): (r: string)
    ensures r == [] <==> NoExtension(b)
    ensures r != [] ==> DotTail(r, b)
  {
    var dot := LastIndex(b, '.');
    DotAfterFirst(b);
    if dot <= 0 || b == ".." then ""
    else
      var r := b[dot..];
      assert forall j :: 0 <= j < |r[1..]| ==> r[1..][j] == b[dot + 1 + j];
      r
  }

  /** Node's `path.extname` (POSIX): the extension of the last path
      segment, which holds no '/'. */
  function Extname(path: string): (r: string)
    ensures r == [] <==> NoExtension(Basename(path))
    ensures r != [] ==> DotTail(r, Basename(path)) && '/' !in r
  {
    var b := Basename(path);
    var r := SegmentExt(b);
    SuffixLacks(b, |b| - |r|, '/');
    r
  }

  /** A suffix lacks every character the whole string lacks. */
  lemma SuffixLacks(b: string, k: nat, c: char)
    requires k <= |b| && c !in b
    ensures c !in b[k..]
  {
  }

  /** A '.' past the first character exists exactly when the last '.'
      is past the first character. */
  lemma DotAfterFirst(b: string)
    ensures b != [] ==> ('.' in b[1..] <==> LastIndex(b, '.') > 0)
  {
    if b != [] {
      var dot := LastIndex(b, '.');
      if dot > 0 {
        assert b[1..][dot - 1] == '.';
      }
      if '.' in b[1..] {
        var j :| 0 <= j < |b[1..]| && b[1..][j] == '.';
        assert b[j + 1] == '.';
      }
    }
  }

  /** The last occurrence is pinned down by its contract. */
  lemma LastIndexIs(s: string, c: char, k: int)
    requires -1 <= k < |s|
    requires k >= 0 ==> s[k] == c
    requires forall j :: k < j < |s| ==> s[j] != c
    ensures LastIndex(s, c) == k
  {
  }

  /** For a plain file name "name.ext", the extension is ".ext". */
  lemma ExtnameOfFileName(name: string, ext: string)
    requires name != [] && '/' !in name
    requires '.' !in ext && '/' !in ext
    requires !(name == "." && ext == "")
    ensures Extname(name + "." + ext) == "." + ext
  {
    var p := name + "." + ext;
    forall i | 0 <= i < |p|
      ensures p[i] != '/'
      ensures i > |name| ==> p[i] != '.'
    {
      if i < |name| {
        assert p[i] == name[i];
      } else if i > |name| {
        assert p[i] == ext[i - |name| - 1];
      }
    }
    assert StripTrailingSlashes(p) == p;
    LastIndexIs(p, '/', -1);
    assert Basename(p) == p;
    LastIndexIs(p, '.', |name|);
    assert p == ".." ==> name == "." && ext == "";
    assert p[|name|..] == "." + ext;
  }

  /** What the unanchored regular expression /jpeg|jpg|png/ accepts. */
  predicate MatchesImageType(s: string) {
    Contains(s, "jpeg") || Contains(s, "jpg") || Contains(s, "png")
  }

  /** The multer `fileFilter`: the lower-cased extension and the MIME
      type (as given, not lower-cased) must both match. */
  predicate FileFilter(originalName: string, mimeType: string) {
    MatchesImageType(LowerAscii(Extname(originalName))) && MatchesImageType(mimeType)
  }

  /** The upload middleware lets the file through. */
  predicate Accepts(u: Upload) {
    FileFilter(u.originalName, u.mimeType) && u.size <= MaxUploadBytes
  }

  /** The extension's letter case does not matter. */
  lemma ExtensionCaseIgnored(name: string, ext: string, mimeType: string)
    requires name != [] && '/' !in name
    requires '.' !in ext && '/' !in ext
    requires !(name == "." && ext == "")
    ensures FileFilter(name + "." + ext, mimeType) == FileFilter(name + "." + LowerAscii(ext), mimeType)
  {
    var lext := LowerAscii(ext);
    LowerKeepsSeparators(ext);
    ExtnameOfFileName(name, ext);
    ExtnameOfFileName(name, lext);
    LowerTwice("." + ext, "." + lext);
  }

  lemma LowerKeepsSeparators(ext: string)
    requires '.' !in ext && '/' !in ext
    ensures '.' !in LowerAscii(ext) && '/' !in LowerAscii(ext)
  {
    var lext := LowerAscii(ext);
    forall i | 0 <= i < |lext|
      ensures lext[i] != '.' && lext[i] != '/'
    {
      assert ext[i] != '.' && ext[i] != '/';
    }
  }

  lemma LowerTwice(a: string, b: string)
    requires |a| == |b| && a != [] && b[0] == a[0] && b[1..] == LowerAscii(a[1..])
    ensures LowerAscii(a) == LowerAscii(b)
  {
    var la, lb := LowerAscii(a), LowerAscii(b);
    forall i | 0 <= i < |la|
      ensures la[i] == lb[i]
    {
      if i > 0 {
        assert b[i] == b[1..][i - 1] == LowerChar(a[i]);
      }
    }
  }

  /** A pattern whose first character does not occur cannot occur. */
  lemma AbsentFirstChar(s: string, p: string)
    requires p != [] && p[0] !in s
    ensures !Contains(s, p)
  {
  }

  /** The filter's test on its `mimetype` argument is case-sensitive: an
      upper-case value would be refused. The multipart parser lower-cases
      the declared type before the filter sees it, so this is a property
      of the filter function, not of an upload. */
  lemma UpperCaseMimeTypeRefused()
    ensures !FileFilter("photo.png", "IMAGE/PNG")
  {
    AbsentFirstChar("IMAGE/PNG", "png");
    AbsentFirstChar("IMAGE/PNG", "jpg");
    AbsentFirstChar("IMAGE/PNG", "jpeg");
  }

  /** A file whose last segment has no extension is always refused. */
  lemma NoExtensionRefused(path: string, mimeType: string)
    ensures NoExtension(Basename(path)) ==> !FileFilter(path, mimeType)
  {
    if NoExtension(Basename(path)) {
      assert Extname(path) == [] && LowerAscii([]) == [];
    }
  }

  /** For a plain file name `name.ext`, the filter passes exactly when
      the lower-cased `.ext` and the MIME type both mention an image
      type. */
  lemma FileNameFiltered(name: string, ext: string, mimeType: string)
    requires name != [] && '/' !in name
    requires '.' !in ext && '/' !in ext
    requires !(name == "." && ext == "")
    ensures FileFilter(name + "." + ext, mimeType) <==>
              MatchesImageType(LowerAscii("." + ext)) && MatchesImageType(mimeType)
  {
    ExtnameOfFileName(name, ext);
  }

  /** An upload of `name.ext` passes exactly when the filter passes and
      the file is at most 5 MB. */
  lemma FileNameAccepted(name: string, ext: string, mimeType: string, size: nat, storedName: string)
    requires name != [] && '/' !in name
    requires '.' !in ext && '/' !in ext
    requires !(name == "." && ext == "")
    ensures Accepts(Upload(name + "." + ext, mimeType, size, storedName)) <==>
              MatchesImageType(LowerAscii("." + ext)) && MatchesImageType(mimeType)
              && size <= 5 * 1024 * 1024
  {
    FileNameFiltered(name, ext, mimeType);
  }

  /** `.png`, `.jpg`, `.jpeg` and their upper-case spellings are image
      extensions. */
  lemma ImageExtensions()
    ensures MatchesImageType(LowerAscii(".png")) && MatchesImageType(LowerAscii(".PNG"))
    ensures MatchesImageType(LowerAscii(".jpg")) && MatchesImageType(LowerAscii(".JPEG"))
  {
    assert LowerAscii(".png") == ".png" == LowerAscii(".PNG");
    assert OccursAt(".png", "png", 1);
    assert LowerAscii(".jpg") == ".jpg";
    assert OccursAt(".jpg", "jpg", 1);
    assert LowerAscii(".JPEG") == ".jpeg";
    assert OccursAt(".jpeg", "jpeg", 1);
  }
}
