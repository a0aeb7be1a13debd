/** The checks the backend's volume service makes before it touches the
    file system: safe file names, image signatures, bucket lookup and the
    paths it derives, the sanity check on configured bucket paths, and the
    age test of the temp-file cleanup. Paths follow Node's POSIX `path`
    module; an absolute, normalised path is the list of its segments. The
    file-system calls themselves are not modelled: the operations return
    the paths they would write, move or unlink. */
module Volume {
  import opened Wrappers
  import opened Strings

  newtype byte = x: int | 0 <= x < 256

  /** An absolute normalised path: its segments below "/", none empty,
      "." or "..". */
  type Path = seq<string>

  const AllowedExtensions: set<string> := {".png", ".jpg", ".jpeg", ".webp"}

  /** The bucket table: key to sub-directory of the volume root. */
  const Buckets: map<string, string> := map["stencil" := "stencil"]

  /** One hour, in milliseconds. */
  const TempFileMaxAge: int := 1000 * 60 * 60

  const BasenameRejected: string := "file basename was rejected"
  const SignatureRejected: string := "invalid file signature given to fileFilter"
  const BucketEscape: string := "Bucket has been modified to allow an escape, unable to use bucket"

  // ---------------------------------------------------------------------
  // Splitting and Node's POSIX path functions

  /** `s.split(sep)` for a one-character separator (any of `seps`): the
      pieces between separators, empty ones included. */
  function SplitBy(s: string, seps: set<char>): (r: seq<string>)
    ensures |r| >= 1
    decreases |s|
  {
    if s == [] then [[]]
    else
      var rest := SplitBy(s[1..], seps);
      if s[0] in seps then [[]] + rest else [[s[0]] + rest[0]] + rest[1..]
  }

  /** The non-empty pieces, in order. */
  function NonEmpty(ps: seq<string>): (r: seq<string>)
    ensures forall i :: 0 <= i < |r| ==> r[i] != []
  {
    if ps == [] then []
    else (if ps[0] == [] then [] else [ps[0]]) + NonEmpty(ps[1..])
  }

  /** `path.basename(s)`: trailing slashes dropped, then what follows the
      last slash. */
  function Basename(s: string): string {
    AfterLastSlash(TrimSlashes(s))
  }

  function TrimSlashes(s: string): (r: string)
    ensures |r| <= |s| && r == s[..|r|]
    ensures '/' !in s ==> r == s
  {
    if s != [] && s[|s| - 1] == '/' then TrimSlashes(s[..|s| - 1]) else s
  }

  function AfterLastSlash(s: string): (r: string)
    ensures '/' !in r
    ensures '/' !in s ==> r == s
  {
    if s == [] || s[|s| - 1] == '/' then []
    else AfterLastSlash(s[..|s| - 1]) + [s[|s| - 1]]
  }

  /** A name is its own base name exactly when it has no slash. */
  lemma BasenameIdentity(s: string)
    ensures Basename(s) == s <==> '/' !in s
  {
  }

  /** Index of the last '.', or -1. */
  function LastDot(s: string): (d: int)
    ensures -1 <= d < |s|
    ensures d >= 0 ==> s[d] == '.'
    ensures forall j :: d < j < |s| ==> s[j] != '.'
  {
    if s == [] then -1
    else if s[|s| - 1] == '.' then |s| - 1
    else LastDot(s[..|s| - 1])
  }

  /** `path.extname(s)` for a name without slashes: from the last '.' to
      the end, or "" when there is no '.', when the only candidate is the
      leading '.' of a dot-file, or for "..". */
  function ExtName(s: string): (e: string)
    requires '/' !in s
  {
    var d := LastDot(s);
    if d <= 0 || s == ".." then [] else s[d..]
  }

  lemma ExtNameExamples()
    ensures ExtName("stencil.png") == ".png"
    ensures ExtName("a.b.JPG") == ".JPG"
    ensures ExtName(".png") == []
    ensures ExtName("README") == []
  {
    LastDotAt("stencil.png", 7);
    LastDotAt("a.b.JPG", 3);
    LastDotAt(".png", 0);
    assert LastDot("README") == -1 by {
      assert forall i :: 0 <= i < 6 ==> "README"[i] != '.';
    }
  }

  // ---------------------------------------------------------------------
  // checkSafeBasename

  /** `/^[A-Za-z0-9._-]+$/` on one character. */
  predicate IsSafeChar(c: char) {
    ('A' <= c <= 'Z') || ('a' <= c <= 'z') || ('0' <= c <= '9') || c == '.' || c == '_' || c == '-'
  }

  predicate AllSafeChars(s: string) {
    forall i :: 0 <= i < |s| ==> IsSafeChar(s[i])
  }

  /** `checkSafeBasename`: the checks in the order the source makes them;
      any failure throws the same message. */
  function CheckSafeBasename(name: string): (r: Result<bool>)
    ensures r.Failure? ==> r.error == BasenameRejected
    ensures r.Success? ==> r.value && 0 < |name| <= 255 && '/' !in name && '\\' !in name
  {
    if |name| == 0 || |name| > 255 || Basename(name) != name || Contains(name, "..") || !AllSafeChars(name) then
      Failure(BasenameRejected)
    else
      BasenameIdentity(name);
      if Lower(ExtName(name)) !in AllowedExtensions then Failure(BasenameRejected)
      else
        assert !IsSafeChar('/') && !IsSafeChar('\\');
        Success(true)
  }

  /** Reference definition of an accepted name: 1 to 255 characters of
      `[A-Za-z0-9._-]`, no "..", and ending, in any letter case, with an
      allowed extension that is not the whole name. */
  predicate SafeName(name: string) {
    0 < |name| <= 255 && AllSafeChars(name) && !Contains(name, "..") &&
    exists e :: e in AllowedExtensions && |e| < |name| && EndsWith(Lower(name), e)
  }

  /** Each allowed extension is a '.' followed by letters only. */
  lemma ExtensionShape(e: string)
    requires e in AllowedExtensions
    ensures |e| >= 4 && e[0] == '.' && forall k :: 1 <= k < |e| ==> e[k] != '.' && LowerChar(e[k]) == e[k]
  {
  }

  lemma LowerSuffix(s: string, d: int)
    requires 0 <= d <= |s|
    ensures Lower(s)[d..] == Lower(s[d..])
  {
  }

  /** `checkSafeBasename` accepts exactly the names of the reference
      definition. */
  lemma CheckSafeBasenameExact(name: string)
    ensures CheckSafeBasename(name).Success? <==> SafeName(name)
  {
    if CheckSafeBasename(name).Success? {
      CheckSafeBasenameSound(name);
    }
    if SafeName(name) {
      CheckSafeBasenameComplete(name);
    }
  }

  lemma CheckSafeBasenameSound(name: string)
    requires CheckSafeBasename(name).Success?
    ensures SafeName(name)
  {
    BasenameIdentity(name);
    var d := LastDot(name);
    var ext := ExtName(name);
    assert ext == name[d..];
    LowerSuffix(name, d);
    assert Lower(name)[|name| - |ext|..] == Lower(ext);
    assert EndsWith(Lower(name), Lower(ext));
  }

  lemma CheckSafeBasenameComplete(name: string)
    requires SafeName(name)
    ensures CheckSafeBasename(name).Success?
  {
    var e :| e in AllowedExtensions && |e| < |name| && EndsWith(Lower(name), e);
    assert '/' !in name by {
      assert !IsSafeChar('/');
    }
    BasenameIdentity(name);
    ExtNameOfSafe(name, e);
  }

  /** The extension of a name ending in an allowed extension is that
      extension, up to letter case. */
  lemma ExtNameOfSafe(name: string, e: string)
    requires '/' !in name && !Contains(name, "..")
    requires e in AllowedExtensions && |e| < |name| && EndsWith(Lower(name), e)
    ensures Lower(ExtName(name)) == e
  {
    ExtensionShape(e);
    var d := |name| - |e|;
    assert Lower(name)[d..] == e;
    assert name[d] == '.' by {
      assert LowerChar(name[d]) == Lower(name)[d] == e[0];
    }
    forall j | d < j < |name| ensures name[j] != '.' {
      assert LowerChar(name[j]) == Lower(name)[j] == e[j - d];
    }
    LastDotAt(name, d);
    assert name != "..";
    LowerSuffix(name, d);
  }

  /** A '.' with no '.' after it is the last dot. */
  lemma {:induction false} LastDotAt(s: string, d: int)
    requires 0 <= d < |s| && s[d] == '.'
    requires forall j :: d < j < |s| ==> s[j] != '.'
    ensures LastDot(s) == d
    decreases |s|
  {
    if d < |s| - 1 {
      LastDotAt(s[..|s| - 1], d);
    }
  }

  /** No two adjacent dots means no "..". */
  lemma NoDoubleDot(s: string)
    requires forall i :: 0 <= i < |s| - 1 ==> s[i] != '.' || s[i + 1] != '.'
    ensures !Contains(s, "..")
  {
    forall i | 0 <= i <= |s| ensures !OccursAt(s, "..", i) {
      if i + 2 <= |s| {
        assert s[i..i + 2][0] == s[i] && s[i..i + 2][1] == s[i + 1];
      }
    }
  }

  lemma SafeBasenameAcceptsPng()
    ensures CheckSafeBasename("stencil.png").Success?
  {
    NoDoubleDot("stencil.png");
    assert EndsWith(Lower("stencil.png"), ".png");
    CheckSafeBasenameComplete("stencil.png");
  }

  lemma SafeBasenameAcceptsUpperCase()
    ensures CheckSafeBasename("Photo_01.JPEG").Success?
  {
    NoDoubleDot("Photo_01.JPEG");
    assert EndsWith(Lower("Photo_01.JPEG"), ".jpeg");
    CheckSafeBasenameComplete("Photo_01.JPEG");
  }

  lemma SafeBasenameRejects()
    ensures CheckSafeBasename("../x.png").Failure?
    ensures CheckSafeBasename(".png").Failure?
    ensures CheckSafeBasename("a.gif").Failure?
  {
    RejectsParent();
    RejectsBareExtension();
    RejectsGif();
  }

  lemma RejectsParent()
    ensures CheckSafeBasename("../x.png").Failure?
  {
    assert OccursAt("../x.png", "..", 0);
  }

  lemma RejectsBareExtension()
    ensures CheckSafeBasename(".png").Failure?
  {
    LastDotAt(".png", 0);
  }

  lemma RejectsGif()
    ensures CheckSafeBasename("a.gif").Failure?
  {
    LastDotAt("a.gif", 1);
    assert Lower(".gif") == ".gif";
  }

  // ---------------------------------------------------------------------
  // fileFilter

  /** `buffer[i] === v`: an index past the end reads `undefined`, which
      equals no byte. */
  predicate ByteIs(buffer: seq<byte>, i: nat, v: byte) {
    i < |buffer| && buffer[i] == v
  }

  /** `fileFilter`: a PNG, JPEG or WEBP signature, else an error. */
  function FileFilter(buffer: seq<byte>): (r: Result<bool>)
    ensures r.Failure? ==> r.error == SignatureRejected
    ensures r.Success? ==> r.value
    ensures r.Success? <==>
      (|buffer| >= 4 && buffer[..4] == [0x89, 0x50, 0x4E, 0x47]) ||
      (|buffer| >= 3 && buffer[..3] == [0xFF, 0xD8, 0xFF]) ||
      (|buffer| >= 12 && buffer[8..12] == [0x57, 0x45, 0x42, 0x50])
  {
    var png := ByteIs(buffer, 0, 0x89) && ByteIs(buffer, 1, 0x50) && ByteIs(buffer, 2, 0x4E) && ByteIs(buffer, 3, 0x47);
    var jpg := ByteIs(buffer, 0, 0xFF) && ByteIs(buffer, 1, 0xD8) && ByteIs(buffer, 2, 0xFF);
    var webp := ByteIs(buffer, 8, 0x57) && ByteIs(buffer, 9, 0x45) && ByteIs(buffer, 10, 0x42) && ByteIs(buffer, 11, 0x50);
    if !(png || jpg || webp) then Failure(SignatureRejected) else Success(png || jpg || webp)
  }

  // ---------------------------------------------------------------------
  // Paths: resolve, join, the bucket-path sanity check

  /** One segment of a path walk: "" and "." stay, ".." goes up (never
      above the root), anything else goes down. */
  function Step(p: Path, piece: string): Path {
    if piece == [] || piece == "." then p
    else if piece == ".." then (if p == [] then [] else p[..|p| - 1])
    else p + [piece]
  }

  function Walk(p: Path, pieces: seq<string>): Path
    decreases |pieces|
  {
    if pieces == [] then p else Walk(Step(p, pieces[0]), pieces[1..])
  }

  /** `path.isAbsolute` on POSIX. */
  predicate IsAbsolute(s: string) {
    |s| > 0 && s[0] == '/'
  }

  /** `path.resolve(base, rel)` for an absolute normalised `base`. */
  function Resolve(base: Path, rel: string): Path {
    var pieces := SplitBy(rel, {'/'});
    if IsAbsolute(rel) then Walk([], pieces) else Walk(base, pieces)
  }

  /** `path.join(dir, name)` for an absolute normalised `dir`. */
  function Join(dir: Path, name: string): Path {
    Walk(dir, SplitBy(name, {'/'}))
  }

  /** `p` is `root` or lies below it: the `startsWith(root + sep)` or
      equality test, on segments. */
  predicate Under(root: Path, p: Path) {
    |p| >= |root| && p[..|root|] == root
  }

  /** `s.split(/[\\/]+/)`: runs of separators split once, so empty pieces
      survive only at the two ends. */
  function RunSplit(s: string): (r: seq<string>)
    ensures |r| >= 1
  {
    var ps := SplitBy(s, {'/', '\\'});
    if |ps| <= 1 then ps else [ps[0]] + NonEmpty(ps[1..|ps| - 1]) + [ps[|ps| - 1]]
  }

  /** The sanity check on a configured bucket path: relative, and no piece
      empty, "." or "..". */
  predicate ValidBucketPath(s: string) {
    !IsAbsolute(s) && forall p :: p in RunSplit(s) ==> p != [] && p != "." && p != ".."
  }

  function CheckBucketPath(s: string): (r: Result<bool>)
    ensures r.Success? <==> ValidBucketPath(s)
    ensures r.Failure? ==> r.error == "Invalid bucket path for \"" + s + "\": " + s
  {
    if !ValidBucketPath(s) then Failure("Invalid bucket path for \"" + s + "\": " + s) else Success(true)
  }

  /** Without backslashes the two splits agree. */
  lemma {:induction false} SplitWithoutBackslash(s: string)
    requires '\\' !in s
    ensures SplitBy(s, {'/', '\\'}) == SplitBy(s, {'/'})
    decreases |s|
  {
    if s != [] {
      SplitWithoutBackslash(s[1..]);
    }
  }

  /** Walking pieces that are never "." or ".." only goes down, through the
      non-empty pieces. */
  lemma {:induction false} WalkDown(p: Path, pieces: seq<string>)
    requires forall i :: 0 <= i < |pieces| ==> pieces[i] != "." && pieces[i] != ".."
    ensures Walk(p, pieces) == p + NonEmpty(pieces)
    decreases |pieces|
  {
    if pieces != [] {
      WalkDown(Step(p, pieces[0]), pieces[1..]);
    }
  }

  /** Every piece of the single-character split of a sane path shows up
      in the run split unless it is empty. */
  lemma RunSplitPieces(s: string, i: int)
    requires 0 <= i < |SplitBy(s, {'/', '\\'})|
    ensures var ps := SplitBy(s, {'/', '\\'});
      (ps[i] == [] && 0 < i < |ps| - 1) || ps[i] in RunSplit(s)
  {
    var ps := SplitBy(s, {'/', '\\'});
    if |ps| > 1 && 0 < i < |ps| - 1 && ps[i] != [] {
      NonEmptyKeeps(ps[1..|ps| - 1], i - 1);
    }
  }

  lemma {:induction false} NonEmptyKeeps(ps: seq<string>, i: int)
    requires 0 <= i < |ps| && ps[i] != []
    ensures ps[i] in NonEmpty(ps)
    decreases |ps|
  {
    if i > 0 {
      NonEmptyKeeps(ps[1..], i - 1);
    }
  }

  /** A configured bucket path that passes the sanity check, written with
      '/' only, resolves strictly below the root, through its pieces. */
  lemma SaneResolvesBelow(root: Path, s: string)
    requires ValidBucketPath(s) && '\\' !in s
    ensures Resolve(root, s) == root + NonEmpty(SplitBy(s, {'/'}))
    ensures Under(root, Resolve(root, s)) && |Resolve(root, s)| > |root|
  {
    SplitWithoutBackslash(s);
    var ps := SplitBy(s, {'/'});
    forall i | 0 <= i < |ps| ensures ps[i] != "." && ps[i] != ".." {
      RunSplitPieces(s, i);
    }
    WalkDown(root, ps);
    assert ps[0] in RunSplit(s);
    assert NonEmpty(ps)[0] == ps[0];
  }

  // ---------------------------------------------------------------------
  // Buckets and the operations that use them

  /** `findSubdirectory`: the bucket's directory under the root, or an
      error for an unknown key or a path that escapes. */
  function FindSubdirectory(root: Path, bucketKey: string): (r: Result<Path>)
    ensures r.Success? ==> bucketKey in Buckets && Under(root, r.value)
    ensures bucketKey !in Buckets ==> r == Failure("Invalid bucket: " + bucketKey)
  {
    if bucketKey !in Buckets || Buckets[bucketKey] == [] then Failure("Invalid bucket: " + bucketKey)
    else
      var absolutePath := Resolve(root, Buckets[bucketKey]);
      if !Under(root, absolutePath) then Failure(BucketEscape) else Success(absolutePath)
  }

  /** The configured buckets, and the temp folder, pass the sanity check;
      the stencil bucket is the root's "stencil" directory. */
  lemma ConfiguredBuckets(root: Path)
    ensures ValidBucketPath("stencil") && ValidBucketPath("temp")
    ensures FindSubdirectory(root, "stencil") == Success(root + ["stencil"])
  {
    SingleSegmentBucket("stencil");
    SingleSegmentBucket("temp");
    StencilBucketDirectory(root);
  }

  /** A bucket path of one ordinary segment passes the sanity check. */
  lemma SingleSegmentBucket(s: string)
    requires s != [] && s != "." && s != ".."
    requires forall i :: 0 <= i < |s| ==> s[i] != '/' && s[i] != '\\'
    ensures ValidBucketPath(s)
  {
    NoSeparator(s, {'/', '\\'});
  }

  /** The stencil bucket resolves to the root's "stencil" directory. */
  lemma StencilBucketDirectory(root: Path)
    ensures FindSubdirectory(root, "stencil") == Success(root + ["stencil"])
  {
    SingleSegmentBucket("stencil");
    SaneResolvesBelow(root, "stencil");
    NoSeparator("stencil", {'/'});
  }

  /** Joining a safe base name adds exactly that one segment. */
  lemma JoinSafeName(dir: Path, name: string)
    requires CheckSafeBasename(name).Success?
    ensures Join(dir, name) == dir + [name]
  {
    SafeNameIsSegment(name);
    NoSeparator(name, {'/'});
    assert Step(dir, name) == dir + [name];
    assert Walk(dir + [name], []) == dir + [name];
  }

  /** A safe base name is one ordinary path segment: no '/', and longer
      than its extension, so neither "." nor "..". */
  lemma SafeNameIsSegment(name: string)
    requires CheckSafeBasename(name).Success?
    ensures '/' !in name && |name| > 4
  {
    CheckSafeBasenameSound(name);
    var e :| e in AllowedExtensions && |e| < |name| && EndsWith(Lower(name), e);
    ExtensionShape(e);
  }

  lemma {:induction false} NoSeparator(s: string, seps: set<char>)
    requires forall i :: 0 <= i < |s| ==> s[i] !in seps
    ensures SplitBy(s, seps) == [s]
    decreases |s|
  {
    if s != [] {
      NoSeparator(s[1..], seps);
      assert [s[0]] + s[1..] == s;
    }
  }

  const DeletePathRejected: string :=
    "invalid path sent to VolumeService.deleteImage: path must look like {bucket}/{base name}\nPath provided: "

  /** `deleteImage`'s checks: exactly one "/", a safe base name after it
      and a known bucket before it, all before anything is unlinked. The
      result is the path it would unlink. */
  function DeleteImage(root: Path, filePath: string): (r: Result<Path>)
  {
    var parts := SplitBy(filePath, {'/'});
    if |parts| != 2 then Failure(DeletePathRejected + filePath)
    else
      var safe := CheckSafeBasename(parts[1]);
      if safe.Failure? then Failure(safe.error)
      else
        var dir := FindSubdirectory(root, parts[0]);
        if dir.Failure? then Failure(dir.error)
        else Success(Join(dir.value, parts[1]))
  }

  /** A deletion goes ahead only for "<bucket>/<safe name>", and it unlinks
      the file of that name directly inside the bucket's directory. */
  lemma DeleteImageTarget(root: Path, filePath: string)
    requires DeleteImage(root, filePath).Success?
    ensures var parts := SplitBy(filePath, {'/'});
      |parts| == 2 && parts[0] in Buckets && SafeName(parts[1]) &&
      DeleteImage(root, filePath).value == FindSubdirectory(root, parts[0]).value + [parts[1]] &&
      Under(root, DeleteImage(root, filePath).value)
  {
    var parts := SplitBy(filePath, {'/'});
    DeleteImageSteps(root, filePath);
    var dir := FindSubdirectory(root, parts[0]);
    CheckSafeBasenameSound(parts[1]);
    JoinSafeName(dir.value, parts[1]);
    UnderExtend(root, dir.value, parts[1]);
  }

  lemma UnderExtend(root: Path, p: Path, x: string)
    requires Under(root, p)
    ensures Under(root, p + [x]) && |p + [x]| > |root|
  {
    assert (p + [x])[..|root|] == p[..|root|];
  }

  lemma DeleteImageSteps(root: Path, filePath: string)
    requires DeleteImage(root, filePath).Success?
    ensures var parts := SplitBy(filePath, {'/'});
      |parts| == 2 && CheckSafeBasename(parts[1]).Success? && FindSubdirectory(root, parts[0]).Success? &&
      DeleteImage(root, filePath).value == Join(FindSubdirectory(root, parts[0]).value, parts[1])
  {
  }

  /** The temp folder, `path.resolve(root, "temp")`. */
  function TempFolder(root: Path): (p: Path)
    ensures p == root + ["temp"]
  {
    NoSeparator("temp", {'/'});
    WalkDown(root, ["temp"]);
    Resolve(root, "temp")
  }

  /** `saveImage`'s checks, in order: the name, the signature, then the
      bucket. The result is the temp path written and the final path the
      file is moved to. */
  function SaveImage(root: Path, image: seq<byte>, bucketKey: string, fileName: string): (r: Result<(Path, Path)>)
  {
    var safe := CheckSafeBasename(fileName);
    if safe.Failure? then Failure(safe.error)
    else
      var signature := FileFilter(image);
      if signature.Failure? then Failure(signature.error)
      else
        var dir := FindSubdirectory(root, bucketKey);
        if dir.Failure? then Failure(dir.error)
        else Success((Join(TempFolder(root), fileName), Join(dir.value, fileName)))
  }

  /** Nothing is written unless the name and the signature pass, and the
      first failing check decides the error. */
  lemma SaveImageRejects(root: Path, image: seq<byte>, bucketKey: string, fileName: string)
    ensures !SafeName(fileName) ==> SaveImage(root, image, bucketKey, fileName) == Failure(BasenameRejected)
    ensures SafeName(fileName) && FileFilter(image).Failure? ==>
      SaveImage(root, image, bucketKey, fileName) == Failure(SignatureRejected)
  {
    SaveImageSteps(root, image, bucketKey, fileName);
    CheckSafeBasenameExact(fileName);
  }

  /** A saved file is written into the temp folder under its own name and
      then moved directly inside its bucket. */
  lemma SaveImageTarget(root: Path, image: seq<byte>, bucketKey: string, fileName: string)
    requires SaveImage(root, image, bucketKey, fileName).Success?
    ensures bucketKey in Buckets
    ensures var r := SaveImage(root, image, bucketKey, fileName);
      r.value.0 == root + ["temp", fileName] &&
      r.value.1 == FindSubdirectory(root, bucketKey).value + [fileName] &&
      Under(root, r.value.1)
  {
    SaveImageSteps(root, image, bucketKey, fileName);
    var r := SaveImage(root, image, bucketKey, fileName);
    var dir := FindSubdirectory(root, bucketKey);
    JoinSafeName(TempFolder(root), fileName);
    JoinSafeName(dir.value, fileName);
    assert root + ["temp"] + [fileName] == root + ["temp", fileName];
    assert r.value == (root + ["temp", fileName], dir.value + [fileName]);
    UnderExtend(root, dir.value, fileName);
  }

  lemma SaveImageSteps(root: Path, image: seq<byte>, bucketKey: string, fileName: string)
    ensures var r := SaveImage(root, image, bucketKey, fileName);
      (CheckSafeBasename(fileName).Failure? ==> r == Failure(BasenameRejected)) &&
      (CheckSafeBasename(fileName).Success? && FileFilter(image).Failure? ==> r == Failure(SignatureRejected)) &&
      (r.Success? ==>
        CheckSafeBasename(fileName).Success? && FileFilter(image).Success? && FindSubdirectory(root, bucketKey).Success? &&
        r.value == (Join(TempFolder(root), fileName), Join(FindSubdirectory(root, bucketKey).value, fileName)))
  {
  }

  // ---------------------------------------------------------------------
  // Temp-file cleanup

  /** A listed temp file with its modification time in milliseconds, or
      None when `stat` failed (the error is logged and the file skipped). */
  datatype TempFile = TempFile(name: string, mtimeMs: Option<real>)

  /** A file is stale when it is strictly older than one hour. */
  predicate IsStale(now: real, mtimeMs: real) {
    now - mtimeMs > TempFileMaxAge as real
  }

  /** The files the cleanup removes, in listing order. */
  function StaleFiles(files: seq<TempFile>, now: real): (r: seq<string>)
    decreases |files|
  {
    if files == [] then []
    else
      var f := files[|files| - 1];
      StaleFiles(files[..|files| - 1], now) + (if f.mtimeMs.Some? && IsStale(now, f.mtimeMs.value) then [f.name] else [])
  }

  /** A name is removed exactly when one of its listings has a time more
      than an hour before `now`. */
  lemma {:induction false} StaleFilesExact(files: seq<TempFile>, now: real)
    ensures forall x :: x in StaleFiles(files, now) <==>
      exists i :: 0 <= i < |files| && files[i].name == x && files[i].mtimeMs.Some? && IsStale(now, files[i].mtimeMs.value)
    decreases |files|
  {
    if files != [] {
      var front := files[..|files| - 1];
      StaleFilesExact(front, now);
      forall x | (exists i :: 0 <= i < |files| && files[i].name == x && files[i].mtimeMs.Some? && IsStale(now, files[i].mtimeMs.value))
        ensures x in StaleFiles(files, now)
      {
        var i :| 0 <= i < |files| && files[i].name == x && files[i].mtimeMs.Some? && IsStale(now, files[i].mtimeMs.value);
        if i < |files| - 1 {
          assert front[i] == files[i];
        }
      }
    }
  }

  /** A file exactly one hour old is kept; a millisecond more and it goes. */
  lemma StaleIsStrict(now: real)
    ensures !IsStale(now, now - 3600000.0)
    ensures IsStale(now, now - 3600001.0)
  {
  }

  /** `cleanupTempFiles`' loop over the listing: the names it unlinks. */
  method CleanupTempFiles(files: seq<TempFile>, now: real) returns (removed: seq<string>)
    ensures removed == StaleFiles(files, now)
  {
    removed := [];
    for i := 0 to |files|
      invariant removed == StaleFiles(files[..i], now)
    {
      assert files[..i + 1][..i] == files[..i];
      var file := files[i];
      if file.mtimeMs.Some? {
        var fileAge := now - file.mtimeMs.value;
        if fileAge > TempFileMaxAge as real {
          removed := removed + [file.name];
        }
      }
    }
    assert files[..|files|] == files;
  }
}
