/** `POST /api/upload/image` of `backend/src/uploadRoutes.js`: the name the disk
    storage gives an upload, and the public path and URL the handler answers
    with. The clock, the random number, the environment's base URL and the
    request's protocol and host are parameters; the file bytes are not modelled. */
module UploadRoutes {
  import opened Wrappers
  import opened Strings
  import Http

  /** The part of a POSIX path after its last `/`, trailing slashes ignored. */
  function BaseName(path: string): (b: string)
    ensures '/' !in b
    decreases |path|
  {
    if path == [] then []
    else if path[|path| - 1] == '/' then BaseName(path[..|path| - 1])
    else LastSegment(path)
  }

  /** The characters after the last `/` (all of them when there is none). */
  function LastSegment(s: string): (r: string)
    ensures '/' !in r
    ensures |r| <= |s| && r == s[|s| - |r|..]
    ensures |r| < |s| ==> s[|s| - |r| - 1] == '/'
  {
    s[SegmentStart(s)..]
  }

  /** Where the characters after the last `/` begin. */
  function SegmentStart(s: string): (k: nat)
    ensures k <= |s| && '/' !in s[k..]
    ensures k > 0 ==> s[k - 1] == '/'
    decreases |s|
  {
    if s == [] then 0
    else if s[|s| - 1] == '/' then |s|
    else
      var k := SegmentStart(s[..|s| - 1]);
      assert s[k..] == s[..|s| - 1][k..] + [s[|s| - 1]];
      k
  }

  /** The position of the last `.` in `s`, if any. */
  function LastDot(s: string): (r: Option<nat>)
    ensures r.None? <==> '.' !in s
    ensures r.Some? ==> r.value < |s| && s[r.value] == '.' && '.' !in s[r.value + 1..]
    decreases |s|
  {
    if s == [] then None
    else if s[|s| - 1] == '.' then Some(|s| - 1)
    else
      var r := LastDot(s[..|s| - 1]);
      assert forall c :: c in s <==> c in s[..|s| - 1] || c == s[|s| - 1];
      if r.Some? then
        assert s[r.value + 1..] == s[..|s| - 1][r.value + 1..] + [s[|s| - 1]];
        r
      else r
  }

  /** Node's `path.extname`: from the last `.` of the base name to its end, or
      `""` when the base name has no `.`, starts with its only `.`, or is `..`. */
  function ExtName(path: string): (ext: string)
    ensures ext == [] || (ext[0] == '.' && '.' !in ext[1..] && '/' !in ext)
    ensures ext != [] ==> EndsWith(BaseName(path), ext) && |ext| < |BaseName(path)|
    ensures ext != [] <==>
      BaseName(path) != ".." && exists i :: 0 < i < |BaseName(path)| && BaseName(path)[i] == '.'
  {
    var base := BaseName(path);
    match LastDot(base)
    case None => []
    case Some(d) =>
      if d == 0 then
        assert forall i :: 0 < i < |base| ==> base[i] == base[1..][i - 1];
        []
      else if base == ".." then []
      else
        var ext := base[d..];
        assert ext[1..] == base[d + 1..];
        assert '/' !in ext by {
          assert forall i :: 0 <= i < |ext| ==> ext[i] == base[d + i];
        }
        ext
  }

  /** `path.extname(file.originalname) || '.jpg'`: always a dot and a tail with no
      further dot or slash. */
  function Extension(originalName: string): (ext: string)
    ensures |ext| >= 1 && ext[0] == '.' && '.' !in ext[1..] && '/' !in ext
    ensures ExtName(originalName) != [] ==> ext == ExtName(originalName)
  {
    var e := ExtName(originalName);
    if e == [] then ".jpg" else e
  }

  /** `Math.round(Math.random() * 1e9)` for a draw in `[0, 1)`. */
  function RandomSuffix(random: real): (n: nat)
    requires 0.0 <= random < 1.0
    ensures n <= 1000000000
    ensures (n as real) - 0.5 <= random * 1000000000.0 < (n as real) + 0.5
  {
    (random * 1000000000.0 + 0.5).Floor
  }

  /** `${Date.now()}-${suffix}${ext}`: the stored file name. */
  function StoredName(now: nat, random: real, originalName: string): string
    requires 0.0 <= random < 1.0
  {
    NatToString(now) + "-" + NatToString(RandomSuffix(random)) + Extension(originalName)
  }

  /** `.replace(/\/$/, '')`: at most one trailing slash comes off. */
  function DropTrailingSlash(s: string): (r: string)
    ensures r == s || (s == r + "/")
    ensures |s| > 0 && s[|s| - 1] == '/' ==> |r| == |s| - 1
  {
    if |s| > 0 && s[|s| - 1] == '/' then
      assert s == s[..|s| - 1] + "/";
      s[..|s| - 1]
    else s
  }

  /** `process.env.API_BASE_URL || \`${req.protocol}://${req.get('host')}\``. */
  function BaseUrl(apiBase: Option<string>, protocol: string, host: string): (b: string)
    ensures Truthy(apiBase) ==> b == apiBase.value
  {
    if Truthy(apiBase) then apiBase.value else protocol + "://" + host
  }

  const UploadsPrefix := "/uploads/"
  const NoFileMessage := "No file uploaded"

  /** The uploaded file as the handler sees it. */
  datatype File = File(originalName: string)

  /** What the handler answers. */
  datatype Reply =
    | Error(status: int, message: string)
    | Stored(status: int, url: string, path: string)

  /** The handler: 400 without a file; otherwise 201 with the public path of the
      stored name and the URL that puts it under the base. */
  function UploadImage(file: Option<File>, now: nat, random: real,
                       apiBase: Option<string>, protocol: string, host: string): (r: Reply)
    requires 0.0 <= random < 1.0
    ensures file.None? <==> r == Error(Http.BadRequest, NoFileMessage)
    ensures file.Some? ==> r.Stored? && r.status == Http.Created
    ensures file.Some? ==> r.path == UploadsPrefix + StoredName(now, random, file.value.originalName)
    ensures file.Some? ==> EndsWith(r.url, r.path)
    ensures file.Some? ==>
      var base := BaseUrl(apiBase, protocol, host);
      r.url == DropTrailingSlash(base) + r.path
  {
    match file
    case None => Error(Http.BadRequest, NoFileMessage)
    case Some(f) =>
      var path := UploadsPrefix + StoredName(now, random, f.originalName);
      var url := DropTrailingSlash(BaseUrl(apiBase, protocol, host)) + path;
      assert url[|url| - |path|..] == path;
      Stored(Http.Created, url, path)
  }

  /** A base URL ending in a slash and the same base without it give the same URL. */
  lemma SlashInsensitive(base: string, path: string)
    requires |base| > 0 && base[|base| - 1] != '/'
    ensures DropTrailingSlash(base + "/") + path == DropTrailingSlash(base) + path
  {
    assert (base + "/")[..|base|] == base;
  }

  /** The stored name has the clock's digits, a dash, the random digits and the
      extension, and the extension is what the original name had when it had one. */
  lemma StoredNameShape(now: nat, random: real, originalName: string)
    requires 0.0 <= random < 1.0
    ensures var name := StoredName(now, random, originalName);
      && name[..|NatToString(now)|] == NatToString(now)
      && name[|NatToString(now)|] == '-'
      && EndsWith(name, Extension(originalName))
      && (ExtName(originalName) == [] ==> EndsWith(name, ".jpg"))
  {
    NameParts(NatToString(now), NatToString(RandomSuffix(random)), Extension(originalName));
  }

  /** Where the pieces of a dash-joined name sit. */
  lemma NameParts(t: string, u: string, ext: string)
    ensures (t + "-" + u + ext)[..|t|] == t && (t + "-" + u + ext)[|t|] == '-'
    ensures EndsWith(t + "-" + u + ext, ext)
  {
    var name := t + "-" + u + ext;
    assert name[|name| - |ext|..] == ext;
  }
}
