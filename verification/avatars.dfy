/** The local avatar store: validating an uploaded image, naming and
    writing it under the web root, and deleting it again by its URL.
    The file system is a set of paths; the GUID that makes each name
    unique is a parameter. Paths follow the Unix rules of `System.IO.Path`
    ('/' is the only separator). */
module Avatars {
  import opened Base
  import Text

  /** The parts of `IBrowserFile` the service reads. */
  datatype BrowserFile = BrowserFile(name: string, contentType: string, size: int)

  const MaxFileSize: int := 5 * 1024 * 1024
  const AvatarsFolder := "uploads/avatars"
  const AllowedExtensions: seq<string> := [".jpg", ".jpeg", ".png", ".gif"]
  const AllowedMimeTypes: seq<string> := ["image/jpeg", "image/jpg", "image/png", "image/gif"]

  // ---------------------------------------------------------------------
  // Path.GetExtension

  /** `e` is the extension of `path`: a suffix made of a '.' followed by at
      least one character, none of which is a '.' or a separator. */
  predicate IsExtensionOf(path: string, e: string) {
    && |e| >= 2
    && Text.EndsWith(path, e)
    && e[0] == '.'
    && forall k :: 1 <= k < |e| ==> e[k] != '.' && e[k] != '/'
  }

  /** `path` has no extension: it ends in '.', or every '.' in it is
      followed later by a separator. */
  predicate HasNoExtension(path: string) {
    || (|path| > 0 && path[|path| - 1] == '.')
    || forall j :: 0 <= j < |path| && path[j] == '.' ==> exists m :: j < m < |path| && path[m] == '/'
  }

  /** A path has at most one extension. */
  lemma ExtensionUnique(path: string, x: string, y: string)
    requires IsExtensionOf(path, x) && IsExtensionOf(path, y)
    ensures x == y
  {
    if |x| < |y| {
      assert false;
    } else if |y| < |x| {
      assert false;
    }
  }

  /** The backward scan of `Path.GetExtension` over `path[..i]`: stop at a
      separator; at a '.', the rest of the path is the extension unless
      the '.' is the last character. */
  function ExtensionScan(path: string, i: nat): (r: string)
    requires i <= |path|
    requires forall k :: i <= k < |path| ==> path[k] != '.' && path[k] != '/'
    ensures r != [] ==> IsExtensionOf(path, r)
    ensures r == [] <==> HasNoExtension(path)
    decreases i
  {
    if i == 0 then []
    else if path[i - 1] == '.' then
      if i == |path| then [] else path[i - 1..]
    else if path[i - 1] == '/' then
      assert HasNoExtension(path) by {
        forall j | 0 <= j < |path| && path[j] == '.'
          ensures exists m :: j < m < |path| && path[m] == '/'
        {
          assert j < i - 1 && path[i - 1] == '/';
        }
      }
      []
    else ExtensionScan(path, i - 1)
  }

  /** `Path.GetExtension`: the extension including its '.', or empty. */
  function GetExtension(path: string): (r: string)
    ensures r != [] ==> IsExtensionOf(path, r)
    ensures r == [] <==> HasNoExtension(path)
  {
    ExtensionScan(path, |path|)
  }

  /** Whatever suffix has the shape of an extension is the extension. */
  lemma GetExtensionFindsExtension(path: string, e: string)
    requires IsExtensionOf(path, e)
    ensures GetExtension(path) == e
  {
    var j := |path| - |e|;
    assert path[j] == '.';
    assert !HasNoExtension(path) by {
      assert path[|path| - 1] == e[|e| - 1];
      forall m | j < m < |path| ensures path[m] != '/' {
        assert path[m] == e[m - j];
      }
    }
    ExtensionUnique(path, GetExtension(path), e);
  }

  // ---------------------------------------------------------------------
  // IsValidImage

  /** `IsValidImage`: a present, non-empty file no larger than 5 MiB whose
      lower-cased extension and lower-cased content type are both on the
      allowed lists. The size test only rejects zero and oversized files. */
  function IsValidImage(file: Option<BrowserFile>): (ok: bool)
    ensures ok ==> file.Some? && file.value.size != 0 && file.value.size <= MaxFileSize
    ensures ok ==> Text.ToLower(GetExtension(file.value.name)) in AllowedExtensions
    ensures ok ==> Text.ToLower(file.value.contentType) in AllowedMimeTypes
  {
    if file.None? || file.value.size == 0 then false
    else if file.value.size > MaxFileSize then false
    else if Text.ToLower(GetExtension(file.value.name)) !in AllowedExtensions then false
    else if Text.ToLower(file.value.contentType) !in AllowedMimeTypes then false
    else true
  }

  /** An allowed extension: a '.' then letters only. */
  predicate ExtensionShaped(e: string) {
    |e| >= 2 && e[0] == '.' && forall k :: 1 <= k < |e| ==> e[k] != '.' && e[k] != '/'
  }

  lemma AllowedExtensionsShaped(e: string)
    requires e in AllowedExtensions
    ensures ExtensionShaped(e)
  {
  }

  /** Lower-casing keeps '.' and '/' and creates neither. */
  lemma LowerCharKeepsSeparators(c: char)
    ensures LowerCharIs(c, '.') <==> c == '.'
    ensures LowerCharIs(c, '/') <==> c == '/'
  {
  }

  predicate LowerCharIs(c: char, d: char) {
    Text.LowerChar(c) == d
  }

  /** The extension check is a suffix check: the lower-cased extension of
      `name` is the allowed extension `e` exactly when `name`, lower-cased,
      ends with `e`. */
  lemma ExtensionCheckIsSuffixCheck(name: string, e: string)
    requires e in AllowedExtensions
    ensures Text.ToLower(GetExtension(name)) == e <==> Text.EndsWith(Text.ToLower(name), e)
  {
    AllowedExtensionsShaped(e);
    if Text.ToLower(GetExtension(name)) == e {
      ExtensionMatchIsSuffix(name, e);
    }
    if Text.EndsWith(Text.ToLower(name), e) {
      SuffixIsExtensionMatch(name, e);
    }
  }

  /** A matching extension is a suffix of the lower-cased name. */
  lemma ExtensionMatchIsSuffix(name: string, e: string)
    requires ExtensionShaped(e) && Text.ToLower(GetExtension(name)) == e
    ensures Text.EndsWith(Text.ToLower(name), e)
  {
    var lower := Text.ToLower(name);
    var x := GetExtension(name);
    assert |x| == |e| && x != [];
    assert lower[|name| - |e|..] == e by {
      forall k | 0 <= k < |e| ensures lower[|name| - |e| + k] == e[k] {
        assert x[k] == name[|name| - |e| + k];
      }
    }
  }

  /** An extension-shaped suffix of the lower-cased name is the
      lower-cased extension. */
  lemma SuffixIsExtensionMatch(name: string, e: string)
    requires ExtensionShaped(e) && Text.EndsWith(Text.ToLower(name), e)
    ensures Text.ToLower(GetExtension(name)) == e
  {
    var lower := Text.ToLower(name);
    var j := |name| - |e|;
    var x := name[j..];
    forall k | 0 <= k < |x| ensures Text.LowerChar(x[k]) == e[k] {
      assert lower[j + k] == e[k];
    }
    LowerPreimageShaped(x, e);
    assert Text.EndsWith(name, x);
    GetExtensionFindsExtension(name, x);
  }

  /** A string that lower-cases to an extension-shaped `e` is shaped the
      same way and lower-cases to `e`. */
  lemma LowerPreimageShaped(x: string, e: string)
    requires ExtensionShaped(e) && |x| == |e|
    requires forall k :: 0 <= k < |x| ==> Text.LowerChar(x[k]) == e[k]
    ensures |x| >= 2 && x[0] == '.' && Text.ToLower(x) == e
    ensures forall k :: 1 <= k < |x| ==> x[k] != '.' && x[k] != '/'
  {
    LowerCharKeepsSeparators(x[0]);
    forall k | 1 <= k < |x| ensures x[k] != '.' && x[k] != '/' {
      LowerCharKeepsSeparators(x[k]);
    }
  }

  /** The name ends, ignoring ASCII case, with an allowed extension. */
  predicate HasImageName(name: string) {
    exists e :: e in AllowedExtensions && Text.EndsWith(Text.ToLower(name), e)
  }

  /** A reference reading of `IsValidImage` that mentions no extension
      scan: size in range (or negative), an image-like name and an image
      content type, case ignored. */
  lemma ValidImageIff(f: BrowserFile)
    ensures IsValidImage(Some(f)) <==>
      && f.size != 0 && f.size <= MaxFileSize
      && HasImageName(f.name)
      && Text.ToLower(f.contentType) in AllowedMimeTypes
  {
    var ext := Text.ToLower(GetExtension(f.name));
    if ext in AllowedExtensions {
      ExtensionCheckIsSuffixCheck(f.name, ext);
    }
    if HasImageName(f.name) {
      var e :| e in AllowedExtensions && Text.EndsWith(Text.ToLower(f.name), e);
      ExtensionCheckIsSuffixCheck(f.name, e);
    }
  }

  /** A missing or empty file is never an image. */
  lemma MissingOrEmptyRejected(name: string, contentType: string)
    ensures !IsValidImage(None)
    ensures !IsValidImage(Some(BrowserFile(name, contentType, 0)))
  {
  }

  /** Oversized files are rejected whatever their name and type; a file of
      exactly 5 MiB passes the size check. */
  lemma SizeLimit(f: BrowserFile)
    ensures f.size > MaxFileSize ==> !IsValidImage(Some(f))
    ensures f.size == MaxFileSize ==>
      (IsValidImage(Some(f)) <==> HasImageName(f.name) && Text.ToLower(f.contentType) in AllowedMimeTypes)
  {
    ValidImageIff(f);
  }

  /** Lower-casing a string without upper-case ASCII letters changes nothing. */
  lemma ToLowerUnchanged(s: string)
    requires forall k :: 0 <= k < |s| ==> !('A' <= s[k] <= 'Z')
    ensures Text.ToLower(s) == s
  {
  }

  /** Validation ignores ASCII case in both the name and the content type. */
  lemma CaseIgnored(f: BrowserFile)
    ensures IsValidImage(Some(f)) ==
      IsValidImage(Some(f.(name := Text.ToLower(f.name), contentType := Text.ToLower(f.contentType))))
  {
    var g := f.(name := Text.ToLower(f.name), contentType := Text.ToLower(f.contentType));
    Text.ToLowerIdempotent(f.name);
    Text.ToLowerIdempotent(f.contentType);
    ValidImageIff(f);
    ValidImageIff(g);
  }

  /** Name and content type are checked separately: a PNG name with a GIF
      type passes. */
  lemma ExtensionAndTypeIndependent()
    ensures IsValidImage(Some(BrowserFile("a.png", "image/gif", 1024)))
  {
    var f := BrowserFile("a.png", "image/gif", 1024);
    ToLowerUnchanged(f.name);
    ToLowerUnchanged(f.contentType);
    assert Text.EndsWith(f.name, ".png");
    assert AllowedExtensions[2] == ".png";
    assert AllowedMimeTypes[3] == "image/gif";
    ValidImageIff(f);
  }

  /** Every allowed content type begins with "image/". */
  lemma AllowedMimeTypesAreImages(t: string)
    requires t in AllowedMimeTypes
    ensures Text.StartsWith(t, "image/")
  {
  }

  /** Every allowed extension ends in 'g' or 'f'. */
  lemma AllowedExtensionsEndings(e: string)
    requires e in AllowedExtensions
    ensures e != [] && (e[|e| - 1] == 'g' || e[|e| - 1] == 'f')
  {
  }

  /** A text file is refused for its content type. */
  lemma TextFileRejected()
    ensures !IsValidImage(Some(BrowserFile("test.txt", "text/plain", 1024)))
  {
    var f := BrowserFile("test.txt", "text/plain", 1024);
    ToLowerUnchanged(f.contentType);
    forall m | m in AllowedMimeTypes ensures m != f.contentType {
      AllowedMimeTypesAreImages(m);
      assert m[0] != f.contentType[0];
    }
    ValidImageIff(f);
  }

  /** An executable is refused for its name, even with an image content type. */
  lemma ExecutableRejected()
    ensures !IsValidImage(Some(BrowserFile("test.exe", "image/jpeg", 1024)))
  {
    var g := BrowserFile("test.exe", "image/jpeg", 1024);
    ToLowerUnchanged(g.name);
    forall e | e in AllowedExtensions ensures !Text.EndsWith(g.name, e) {
      AllowedExtensionsEndings(e);
      assert e[|e| - 1] != g.name[|g.name| - 1];
    }
    ValidImageIff(g);
  }

  /** The size test checks only zero and the upper bound, so a negative
      size passes it. */
  lemma NegativeSizeAccepted()
    ensures IsValidImage(Some(BrowserFile("a.gif", "image/gif", -1)))
  {
    var f := BrowserFile("a.gif", "image/gif", -1);
    ToLowerUnchanged(f.name);
    ToLowerUnchanged(f.contentType);
    assert Text.EndsWith(f.name, ".gif");
    assert AllowedExtensions[3] == ".gif";
    assert AllowedMimeTypes[3] == "image/gif";
    ValidImageIff(f);
  }

  // ---------------------------------------------------------------------
  // Path.Combine and the file system

  /** `Path.Combine(a, b)`: an empty part is skipped, a rooted `b` replaces
      `a`, and a separator is inserted when `a` does not end in one. */
  function Combine(a: string, b: string): (r: string)
    ensures b == [] ==> r == a
    ensures b != [] && b[0] == '/' ==> r == b
    ensures a == [] ==> r == b
    ensures b != [] && b[0] != '/' ==> Text.EndsWith(r, b) && |r| >= |a| && r[..|a|] == a
    ensures a != [] && b != [] && b[0] != '/' ==>
      r == (if a[|a| - 1] == '/' then a + b else a + "/" + b)
  {
    if b == [] then a
    else if b[0] == '/' then b
    else if a == [] then b
    else if a[|a| - 1] == '/' then a + b
    else a + "/" + b
  }

  /** Where an avatar lands: `Path.Combine(webRoot, AvatarsFolder, fileName)`. */
  function StoragePath(webRoot: string, fileName: string): string {
    Combine(Combine(webRoot, AvatarsFolder), fileName)
  }

  /** The stored file name: user id, '_', the unique token, and the
      lower-cased extension of the uploaded name. */
  function AvatarFileName(userId: string, token: string, name: string): string {
    userId + "_" + token + Text.ToLower(GetExtension(name))
  }

  /** The URL path under which stored avatars are served. */
  const AvatarsUrlPrefix: string := "/" + AvatarsFolder + "/"

  lemma AvatarsUrlPrefixSpelled()
    ensures AvatarsUrlPrefix == "/uploads/avatars/"
  {
  }

  /** The public URL of a stored file name. */
  function AvatarUrl(fileName: string): (url: string)
    ensures Text.StartsWith(url, AvatarsUrlPrefix)
    ensures Text.EndsWith(url, fileName)
    ensures |url| == |AvatarsUrlPrefix| + |fileName|
  {
    AvatarsUrlPrefix + fileName
  }

  datatype UploadOutcome =
    | Uploaded(url: string, files: set<string>)
    | InvalidImage(message: string)

  const InvalidImageMessage := "Invalid image file"

  /** The URL of a stored avatar, spelled out from its parts. */
  lemma UrlSpelled(userId: string, token: string, ext: string)
    ensures var url := AvatarUrl(userId + "_" + token + ext);
      && url == AvatarsUrlPrefix + userId + "_" + token + ext
      && url == AvatarsUrlPrefix + userId + ("_" + token + ext)
  {
  }

  /** `UploadAvatarAsync`: an invalid file raises `ArgumentException`
      before anything is written; a valid one is written under the avatars
      folder and its URL returned. */
  function UploadAvatar(webRoot: string, files: set<string>, file: Option<BrowserFile>,
                        userId: string, token: string): (r: UploadOutcome)
    ensures r.InvalidImage? <==> !IsValidImage(file)
    ensures r.InvalidImage? ==> r.message == InvalidImageMessage
    ensures r.Uploaded? ==>
      var ext := Text.ToLower(GetExtension(file.value.name));
      && r.url == AvatarsUrlPrefix + userId + "_" + token + ext
      && Text.StartsWith(r.url, AvatarsUrlPrefix)
      && Text.Contains(r.url, userId)
      && Text.EndsWith(r.url, ext)
      && ext in AllowedExtensions
      && r.files == files + {StoragePath(webRoot, AvatarFileName(userId, token, file.value.name))}
  {
    if !IsValidImage(file) then InvalidImage(InvalidImageMessage)
    else
      var fileName := AvatarFileName(userId, token, file.value.name);
      var ext := Text.ToLower(GetExtension(file.value.name));
      var url := AvatarUrl(fileName);
      UrlSpelled(userId, token, ext);
      Text.MiddleOccurs(AvatarsUrlPrefix, userId, "_" + token + ext);
      Uploaded(url, files + {StoragePath(webRoot, fileName)})
  }

  /** The URL with exactly one leading '/' removed, if it has one. */
  function RelativePath(url: string): (p: string)
    ensures Text.StartsWith(url, "/") ==> url == "/" + p
    ensures !Text.StartsWith(url, "/") ==> p == url
  {
    if |url| > 0 && url[0] == '/' then url[1..] else url
  }

  /** The file a URL names: `Path.Combine(webRoot, RelativePath(url))`. */
  function UrlPath(webRoot: string, url: string): string {
    Combine(webRoot, RelativePath(url))
  }

  /** `DeleteAvatarAsync`: a missing or empty URL is ignored; otherwise
      the file the URL names is removed if it exists. A failure of the
      file system (`ioFails`) is caught and logged, so the call never
      raises and then leaves the files as they were. */
  function DeleteAvatar(webRoot: string, files: set<string>, url: Option<string>, ioFails: bool)
    : (r: set<string>)
    ensures r <= files
    ensures url.None? || url.value == [] || ioFails ==> r == files
    ensures url.Some? && url.value != [] && !ioFails ==> r == files - {UrlPath(webRoot, url.value)}
  {
    if url.None? || url.value == [] then files
    else if ioFails then files
    else
      var path := UrlPath(webRoot, url.value);
      if path in files then files - {path} else files
  }

  /** A stored name's URL names the file it was stored as, provided the
      name is not itself rooted. */
  lemma {:induction false} UrlNamesStoredFile(webRoot: string, fileName: string)
    requires fileName != [] && fileName[0] != '/'
    ensures UrlPath(webRoot, AvatarUrl(fileName)) == StoragePath(webRoot, fileName)
  {
    var rel := AvatarsFolder + "/" + fileName;
    var url := AvatarUrl(fileName);
    assert url == "/" + rel by {
      assert AvatarsUrlPrefix == "/" + (AvatarsFolder + "/");
      assert "/" + (AvatarsFolder + "/") + fileName == "/" + rel;
    }
    assert RelativePath(url) == rel;
    CombineNested(webRoot, AvatarsFolder, fileName);
  }

  /** Combining a relative folder and then a relative name is combining
      the two joined by one separator. */
  lemma CombineNested(root: string, dir: string, name: string)
    requires dir != [] && dir[0] != '/' && dir[|dir| - 1] != '/'
    requires name != [] && name[0] != '/'
    ensures Combine(Combine(root, dir), name) == Combine(root, dir + "/" + name)
  {
    var rel := dir + "/" + name;
    assert rel[0] == dir[0];
    if root == [] {
    } else if root[|root| - 1] == '/' {
      assert (root + dir)[|root + dir| - 1] == dir[|dir| - 1];
      assert root + dir + "/" + name == root + rel;
    } else {
      assert (root + "/" + dir)[|root + "/" + dir| - 1] == dir[|dir| - 1];
      assert root + "/" + dir + "/" + name == root + "/" + rel;
    }
  }

  /** An avatar name is rooted only if the user id is. */
  lemma AvatarFileNameRelative(userId: string, token: string, name: string)
    requires !Text.StartsWith(userId, "/")
    ensures var fileName := AvatarFileName(userId, token, name);
      fileName != [] && fileName[0] != '/'
  {
    var fileName := AvatarFileName(userId, token, name);
    if |userId| > 0 {
      assert fileName[0] == userId[0];
    } else {
      assert fileName[0] == '_';
    }
  }

  /** Uploading an avatar and then deleting it by the returned URL leaves
      the file system as it was, when the name was not already taken. */
  lemma UploadThenDeleteRestores(webRoot: string, files: set<string>, f: BrowserFile,
                                 userId: string, token: string)
    requires IsValidImage(Some(f))
    requires !Text.StartsWith(userId, "/")
    requires StoragePath(webRoot, AvatarFileName(userId, token, f.name)) !in files
    ensures var up := UploadAvatar(webRoot, files, Some(f), userId, token);
      up.Uploaded? && DeleteAvatar(webRoot, up.files, Some(up.url), false) == files
  {
    var fileName := AvatarFileName(userId, token, f.name);
    var path := StoragePath(webRoot, fileName);
    var url := AvatarUrl(fileName);
    UploadedAs(webRoot, files, f, userId, token);
    AvatarFileNameRelative(userId, token, f.name);
    UrlNamesStoredFile(webRoot, fileName);
    DeleteStoredRestores(webRoot, files, url, path);
  }

  /** Deleting by a URL that names a newly added path removes just it. */
  lemma DeleteStoredRestores(webRoot: string, files: set<string>, url: string, path: string)
    requires url != [] && UrlPath(webRoot, url) == path && path !in files
    ensures DeleteAvatar(webRoot, files + {path}, Some(url), false) == files
  {
  }

  /** A valid upload stores the file under its avatar name and answers
      that name's URL. */
  lemma UploadedAs(webRoot: string, files: set<string>, f: BrowserFile, userId: string, token: string)
    requires IsValidImage(Some(f))
    ensures var fileName := AvatarFileName(userId, token, f.name);
      UploadAvatar(webRoot, files, Some(f), userId, token)
        == Uploaded(AvatarUrl(fileName), files + {StoragePath(webRoot, fileName)})
  {
  }

  /** Only the leading '/' is stripped, so a URL that begins with two
      separators resolves to a rooted path and deletes outside the web
      root. */
  lemma RootedUrlLeavesWebRoot(webRoot: string, files: set<string>)
    requires "/etc/passwd" in files
    ensures DeleteAvatar(webRoot, files, Some("//etc/passwd"), false) == files - {"/etc/passwd"}
    ensures "/etc/passwd" !in DeleteAvatar(webRoot, files, Some("//etc/passwd"), false)
  {
    assert RelativePath("//etc/passwd") == "/etc/passwd";
  }
}
