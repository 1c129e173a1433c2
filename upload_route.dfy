/**
 * Image upload (backend/src/routes/upload.js): the file-type filter, the
 * stored file name, the upload outcome, the error-to-status mapping and the
 * deletion of a stored file. The upload directory is a set of file names;
 * the clock and the random suffix are parameters.
 */
module UploadRoute {
  import opened Wrappers
  import opened Text
  import opened Numbers
  import opened Http

  /** `s` without its trailing `/` characters. */
  function StripTrailingSlashes(s: string): (r: string)
    ensures |r| <= |s| && r == s[..|r|]
    ensures r == [] || r[|r| - 1] != '/'
  {
    if s != [] && s[|s| - 1] == '/' then StripTrailingSlashes(s[..|s| - 1]) else s
  }

  /** The text after the last `/`. */
  function LastSegment(s: string): (r: string)
    ensures |r| <= |s| && r == s[|s| - |r|..]
    ensures '/' !in r
    ensures |r| < |s| ==> s[|s| - |r| - 1] == '/'
  {
    if s == [] || s[|s| - 1] == '/' then []
    else
      var r := LastSegment(s[..|s| - 1]) + [s[|s| - 1]];
      assert s[..|s| - 1][|s| - 1 - (|r| - 1)..] + [s[|s| - 1]] == s[|s| - |r|..];
      r
  }

  /** The index of the last `.`. */
  function LastDot(s: string): (r: Option<nat>)
    ensures r.None? <==> '.' !in s
    ensures r.Some? ==> r.value < |s| && s[r.value] == '.' && '.' !in s[r.value + 1..]
  {
    if s == [] then None
    else if s[|s| - 1] == '.' then Some(|s| - 1)
    else
      var r := LastDot(s[..|s| - 1]);
      assert s == s[..|s| - 1] + [s[|s| - 1]];
      assert r.Some? ==> s[r.value + 1..] == s[..|s| - 1][r.value + 1..] + [s[|s| - 1]];
      r
  }

  /**
   * `path.extname` (POSIX): in the last segment, trailing slashes ignored,
   * the text from the last `.` on; empty when there is no `.`, when the only
   * one starts the segment, and for the segment `..`.
   */
  function ExtName(path: string): string {
    var seg := LastSegment(StripTrailingSlashes(path));
    match LastDot(seg)
    case None => ""
    case Some(d) => if d == 0 || seg == ".." then "" else seg[d..]
  }

  /** An extension: empty, or a `.` followed by text with no `.` and no `/`. */
  predicate IsExtension(e: string) {
    e == [] || (e[0] == '.' && '.' !in e[1..] && '/' !in e)
  }

  /** What `ExtName` returns is an extension. */
  lemma ExtNameIsExtension(path: string)
    ensures IsExtension(ExtName(path))
  {
    var seg := LastSegment(StripTrailingSlashes(path));
    var d := LastDot(seg);
    if d.Some? && d.value != 0 && seg != ".." {
      assert ExtName(path)[1..] == seg[d.value + 1..];
    }
  }

  /** A text with no `/` is its own last segment. */
  lemma {:induction false} LastSegmentOfSlashFree(s: string)
    requires '/' !in s
    ensures LastSegment(s) == s
  {
    if s != [] {
      assert forall i :: 0 <= i < |s| - 1 ==> s[..|s| - 1][i] == s[i];
      LastSegmentOfSlashFree(s[..|s| - 1]);
      assert s == s[..|s| - 1] + [s[|s| - 1]];
    }
  }

  /** `LastDot` finds a `.` that no other `.` follows. */
  lemma {:induction false} LastDotAt(s: string, d: nat)
    requires d < |s| && s[d] == '.' && '.' !in s[d + 1..]
    ensures LastDot(s) == Some(d)
  {
    if d < |s| - 1 {
      assert s[|s| - 1] == s[d + 1..][|s| - 2 - d];
      var t := s[..|s| - 1];
      assert t[d + 1..] + [s[|s| - 1]] == s[d + 1..];
      LastDotAt(t, d);
    }
  }

  /** A name with no `.` or `/`, followed by an extension, has that extension. */
  lemma ExtNameOfBaseAndExtension(base: string, ext: string)
    requires base != [] && '.' !in base && '/' !in base
    requires IsExtension(ext)
    ensures ExtName(base + ext) == ext
  {
    var s := base + ext;
    assert '/' !in s;
    assert s[|s| - 1] in s;
    assert StripTrailingSlashes(s) == s;
    LastSegmentOfSlashFree(s);
    if ext == [] {
      assert s == base;
    } else {
      ExtensionAfterBase(base, ext);
    }
  }

  lemma ExtensionAfterBase(base: string, ext: string)
    requires base != [] && '.' !in base && ext != [] && ext[0] == '.' && '.' !in ext[1..]
    ensures LastDot(base + ext) == Some(|base|)
    ensures base + ext != ".."
    ensures (base + ext)[|base|..] == ext
  {
    var s := base + ext;
    assert s[|base|] == '.';
    assert s[|base| + 1..] == ext[1..];
    LastDotAt(s, |base|);
    assert s[0] == base[0];
  }

  const AllowedMessage := "Only image files (JPEG, PNG, GIF, WebP) are allowed!"
  const TooLargeMessage := "File too large. Maximum size is 5MB."
  const MaxFileSize := 5 * 1024 * 1024

  /** `/jpeg|jpg|png|gif|webp/.test(s)`: one of the five occurs anywhere in `s`. */
  predicate MentionsImageType(s: string) {
    Contains(s, "jpeg") || Contains(s, "jpg") || Contains(s, "png") || Contains(s, "gif") || Contains(s, "webp")
  }

  /** `fileFilter`: the lower-cased extension and the raw MIME type must both mention an image type. */
  function FileFilter(originalName: string, mimeType: string): (r: Option<string>)
    ensures r.None? <==> MentionsImageType(ToLower(ExtName(originalName))) && MentionsImageType(mimeType)
    ensures r.Some? ==> r.value == AllowedMessage
  {
    if MentionsImageType(mimeType) && MentionsImageType(ToLower(ExtName(originalName))) then None
    else Some(AllowedMessage)
  }

  /**
   * For a base name with no `.` or `/`, the filter sees exactly the
   * lower-cased extension and the raw MIME type.
   */
  lemma FilterSeesExtension(base: string, ext: string, mimeType: string)
    requires base != [] && '.' !in base && '/' !in base && IsExtension(ext)
    ensures FileFilter(base + ext, mimeType).None? <==> MentionsImageType(ToLower(ext)) && MentionsImageType(mimeType)
  {
    ExtNameOfBaseAndExtension(base, ext);
  }

  /** `png` anywhere in a text is a mention of an image type. */
  lemma MentionsPng(prefix: string, suffix: string)
    ensures MentionsImageType(prefix + "png" + suffix)
  {
    var s := prefix + "png" + suffix;
    assert s[|prefix|..|prefix| + 3] == "png";
    assert OccursAt(s, "png", |prefix|);
    ContainsIffOccurs(s, "png");
  }

  /** The tests look for a word anywhere: `.PNG` and a MIME type that merely contains `png` both pass. */
  lemma TypeWordsAreUnanchored(prefix: string, suffix: string)
    ensures MentionsImageType(ToLower(".PNG"))
    ensures MentionsImageType(prefix + "png" + suffix)
  {
    assert ToLower(".PNG") == "." + "png" + "";
    MentionsPng(".", "");
    MentionsPng(prefix, suffix);
  }

  /** The MIME type is not lower-cased: a type with no lower-case letter (`IMAGE/PNG`) fails whatever the name. */
  lemma FilterIsCaseSensitiveOnType(originalName: string, mimeType: string)
    requires forall i :: 0 <= i < |mimeType| ==> !('a' <= mimeType[i] <= 'z')
    ensures FileFilter(originalName, mimeType).Some?
  {
    NoImageType(mimeType);
  }

  /** A word whose first letter does not occur in a text is not contained in it. */
  lemma AbsentInitial(s: string, w: string)
    requires w != [] && forall i :: 0 <= i < |s| ==> s[i] != w[0]
    ensures !Contains(s, w)
  {
    ContainsIffOccurs(s, w);
    forall i | 0 <= i <= |s| - |w| ensures !OccursAt(s, w, i) {
      assert s[i..i + |w|][0] == s[i];
    }
  }

  /** A text with none of the letters j, p, g, w mentions none of the five types. */
  lemma NoImageType(s: string)
    requires forall i :: 0 <= i < |s| ==> s[i] != 'j' && s[i] != 'p' && s[i] != 'g' && s[i] != 'w'
    ensures !MentionsImageType(s)
  {
    AbsentInitial(s, "jpeg");
    AbsentInitial(s, "jpg");
    AbsentInitial(s, "png");
    AbsentInitial(s, "gif");
    AbsentInitial(s, "webp");
  }

  /** `image-<clock>-<random>`: the stored name without its extension. */
  function StemName(now: nat, random: nat): string {
    "image-" + NatToString(now) + "-" + NatToString(random)
  }

  /** `image-<clock>-<random><extension>`. */
  function FileName(now: nat, random: nat, originalName: string): string {
    StemName(now, random) + ExtName(originalName)
  }

  /** Decimal digits hold no `.` and no `/`. */
  lemma DigitsHaveNoSeparator(s: string)
    requires forall i :: 0 <= i < |s| ==> IsRadixDigit(s[i], 10)
    ensures '.' !in s && '/' !in s
  {
    assert forall i :: 0 <= i < |s| ==> s[i] != '.' && s[i] != '/';
  }

  /** The stem starts with `image-` and holds neither `.` nor `/`. */
  lemma StemIsPlain(now: nat, random: nat)
    ensures StartsWith(StemName(now, random), "image-")
    ensures '.' !in StemName(now, random) && '/' !in StemName(now, random)
  {
    DigitsHaveNoSeparator(NatToString(now));
    DigitsHaveNoSeparator(NatToString(random));
    assert StemName(now, random)[..6] == "image-";
  }

  /** The stored name starts with `image-`, has no `/`, and keeps the original extension. */
  lemma FileNameKeepsExtension(now: nat, random: nat, originalName: string)
    ensures StartsWith(FileName(now, random, originalName), "image-")
    ensures '/' !in FileName(now, random, originalName)
    ensures ExtName(FileName(now, random, originalName)) == ExtName(originalName)
  {
    var stem := StemName(now, random);
    var ext := ExtName(originalName);
    StemIsPlain(now, random);
    ExtNameIsExtension(originalName);
    ExtNameOfBaseAndExtension(stem, ext);
    assert (stem + ext)[..6] == stem[..6];
  }

  /** What the multipart parser hands the route: no `image` part, or a file. */
  datatype Incoming = NoFile | File(originalName: string, mimeType: string, size: nat)

  /** The errors that reach the route's error handler. */
  datatype UploadError = MulterError(code: string, message: string) | PlainError(message: string)

  /** The error handler: a size overrun and the filter's rejection are 400, anything else 500. */
  function ErrorResponse<T>(e: UploadError): (r: Response<T>)
    ensures r.Fail?
    ensures r.status == 400 <==> (e.MulterError? && e.code == "LIMIT_FILE_SIZE") || e.message == AllowedMessage
    ensures e.MulterError? && e.code == "LIMIT_FILE_SIZE" ==> r.message == TooLargeMessage
    ensures !(e.MulterError? && e.code == "LIMIT_FILE_SIZE") && e.message == AllowedMessage ==> r.message == AllowedMessage
    ensures r.status != 400 ==> r == Error(500, "Upload error")
  {
    if e.MulterError? && e.code == "LIMIT_FILE_SIZE" then Error(400, TooLargeMessage)
    else if e.message == AllowedMessage then Error(400, e.message)
    else Error(500, "Upload error")
  }

  datatype Uploaded = Uploaded(message: string, imagePath: string, filename: string, originalName: string, size: nat)

  /** The uploads directory. */
  class UploadDir {
    var files: set<string>

    constructor ()
      ensures files == {}
    {
      files := {};
    }

    /**
     * POST `/`: a rejected type and then an overlong file end in the error
     * handler with nothing stored; no file is 400; otherwise the file is
     * stored under its generated name and its public path is returned.
     */
    method Upload(incoming: Incoming, now: nat, random: nat) returns (r: Response<Uploaded>)
      modifies this
      ensures incoming.NoFile? ==> r == Error(400, "No image file provided") && files == old(files)
      ensures incoming.File? && FileFilter(incoming.originalName, incoming.mimeType).Some? ==>
        r == ErrorResponse(PlainError(AllowedMessage)) && files == old(files)
      ensures incoming.File? && FileFilter(incoming.originalName, incoming.mimeType).None? && incoming.size > MaxFileSize ==>
        r == ErrorResponse(MulterError("LIMIT_FILE_SIZE", "File too large")) && files == old(files)
      ensures incoming.File? && FileFilter(incoming.originalName, incoming.mimeType).None? && incoming.size <= MaxFileSize ==>
        var name := FileName(now, random, incoming.originalName);
        && files == old(files) + {name}
        && r == Reply(200, Uploaded("Image uploaded successfully", "/uploads/" + name, name, incoming.originalName, incoming.size))
    {
      if incoming.NoFile? {
        return Error(400, "No image file provided");
      }
      var rejected := FileFilter(incoming.originalName, incoming.mimeType);
      if rejected.Some? {
        return ErrorResponse(PlainError(rejected.value));
      }
      if incoming.size > MaxFileSize {
        return ErrorResponse(MulterError("LIMIT_FILE_SIZE", "File too large"));
      }
      var name := FileName(now, random, incoming.originalName);
      files := files + {name};
      r := Reply(200, Uploaded("Image uploaded successfully", "/uploads/" + name, name, incoming.originalName, incoming.size));
    }

    /** DELETE `/:filename`: remove the file when it exists, else 404. */
    method Delete(filename: string) returns (r: Response<string>)
      modifies this
      ensures filename in old(files) ==> r == Reply(200, "Image deleted successfully") && files == old(files) - {filename}
      ensures filename !in old(files) ==> r == Error(404, "Image not found") && files == old(files)
    {
      if filename in files {
        files := files - {filename};
        r := Reply(200, "Image deleted successfully");
      } else {
        r := Error(404, "Image not found");
      }
    }
  }
}
