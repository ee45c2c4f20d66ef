/**
 * The `POST` handler of src/app/api/upload/route.ts, as a function from the
 * configuration, the request and the outcomes of the awaited calls to the
 * response. The compression service and the blob store are parameters; so
 * are the current time (as `toISOString()` gives it) and `randomUUID()`.
 */
module Upload {
  import opened Basics
  import opened Env
  import opened JsString

  const AllowedTypes: set<string> := {"image/jpeg", "image/png", "image/webp"}
  const ExtensionByType: map<string, string> := map["image/jpeg" := "jpg", "image/png" := "png", "image/webp" := "webp"]
  const FallbackExtension: string := "bin"
  const FallbackContentType: string := "application/octet-stream"
  const DefaultBaseName: string := "gambar"
  const LocalBaseUrl: string := "http://localhost:3000"
  /** One year, in seconds. */
  const CacheControlMaxAge: nat := 60 * 60 * 24 * 365

  const MissingApiKeyMessage: string := "Konfigurasi TINIFY_API_KEY belum tersedia."
  const NoFileMessage: string := "Berkas tidak ditemukan dalam permintaan."
  const BadTypeMessage: string := "Format gambar harus JPG, PNG, atau WEBP."
  const EmptyFileMessage: string := "Gagal membaca isi gambar."
  const FallbackErrorMessage: string := "Terjadi kesalahan saat memproses gambar."

  /** A `File` form entry: its declared type, its name and what reading its bytes gives. */
  datatype UploadedFile = UploadedFile(mimeType: string, name: string, content: Attempt<seq<byte>>)

  /** What `formData.get("file")` returns: nothing, a text field, or a file. */
  datatype FormEntry = NoEntry | TextEntry(text: string) | FileEntry(file: UploadedFile)

  /** The request, through what parsing its body as form data gives. */
  datatype Request = Request(form: Attempt<FormEntry>)

  /** The arguments of the blob store's `put`. */
  datatype PutRequest = PutRequest(pathname: string, body: seq<byte>, access: string, contentType: string, cacheControlMaxAge: nat)

  /** The external services: compression of the original bytes, and storage returning the stored object's URL. */
  datatype Services = Services(compress: seq<byte> -> Attempt<seq<byte>>, put: PutRequest -> Attempt<string>)

  datatype Body =
    | ErrorBody(error: string)
    | UploadBody(url: string, blobUrl: string, size: nat, originalSize: nat)

  datatype Response = Response(status: int, body: Body)

  /** `file.type || "application/octet-stream"`. */
  function ContentType(mimeType: string): (t: string)
    ensures t != ""
    ensures mimeType != "" ==> t == mimeType
    ensures mimeType == "" ==> t == FallbackContentType
  {
    if mimeType != "" then mimeType else FallbackContentType
  }

  /** `EXTENSION_BY_TYPE[contentType] ?? "bin"`: total, and never the fallback for an allowed type. */
  function Extension(contentType: string): (ext: string)
    ensures ext == FallbackExtension <==> contentType !in AllowedTypes
    ensures ext != "" && '/' !in ext && '.' !in ext
    ensures contentType == "image/jpeg" ==> ext == "jpg"
    ensures contentType == "image/png" ==> ext == "png"
    ensures contentType == "image/webp" ==> ext == "webp"
  {
    if contentType in ExtensionByType then ExtensionByType[contentType] else FallbackExtension
  }

  // ---- The base-name sanitiser ----

  /** Whether the regular expression `\.[^/.]+$` matches `s` at index `i`. */
  predicate ExtensionAt(s: string, i: int) {
    0 <= i < |s| - 1 && s[i] == '.' && forall j :: i < j < |s| ==> s[j] != '/' && s[j] != '.'
  }

  /** The length of the longest suffix of `s` with neither `/` nor `.` in it. */
  function TailLength(s: string): (k: nat)
    ensures k <= |s|
    ensures forall j :: |s| - k <= j < |s| ==> s[j] != '/' && s[j] != '.'
    ensures k < |s| ==> s[|s| - k - 1] == '/' || s[|s| - k - 1] == '.'
  {
    if s == [] || s[|s| - 1] == '/' || s[|s| - 1] == '.' then 0 else TailLength(s[..|s| - 1]) + 1
  }

  /** `s.replace(/\.[^/.]+$/, "")`: drops a final `.xxx`, xxx non-empty and free of `/` and `.`. */
  function StripExtension(s: string): (r: string)
    ensures forall i :: ExtensionAt(s, i) ==> r == s[..i]
    ensures (forall i :: !ExtensionAt(s, i)) ==> r == s
  {
    var k := TailLength(s);
    if 0 < k < |s| && s[|s| - k - 1] == '.' then
      assert ExtensionAt(s, |s| - k - 1);
      s[..|s| - k - 1]
    else s
  }

  /** The characters the class `[a-z0-9_-]` with the `i` flag matches. */
  predicate IsSafeChar(c: char) {
    'a' <= c <= 'z' || 'A' <= c <= 'Z' || '0' <= c <= '9' || c == '_' || c == '-'
  }

  /** A safe character, as a UTF-16 code unit. */
  predicate IsSafeUnit(u: int) {
    0 <= u < 0x80 && IsSafeChar(u as char)
  }

  /** The regular expression's view: every code unit outside the class becomes `-`. */
  function MaskUnits(u: seq<int>): (r: string)
    ensures |r| == |u|
  {
    seq(|u|, i requires 0 <= i < |u| => if IsSafeUnit(u[i]) then u[i] as char else '-')
  }

  /** What one character becomes: itself if safe, else one `-` per UTF-16 code unit. */
  function MaskChar(c: char): (r: string)
    ensures r == MaskUnits(UnitsOf(c))
  {
    if IsSafeChar(c) then [c] else if IsBmp(c) then "-" else "--"
  }

  lemma MaskUnitsAppend(u: seq<int>, v: seq<int>)
    ensures MaskUnits(u + v) == MaskUnits(u) + MaskUnits(v)
  {
  }

  /**
   * `s.replace(/[^a-z0-9_-]/gi, "-")`. The expression has no `u` flag, so it
   * matches UTF-16 code units: a character outside the Basic Multilingual
   * Plane becomes two dashes.
   */
  function ReplaceUnsafe(s: string): (r: string)
    ensures r == MaskUnits(CodeUnits(s))
  {
    if s == [] then []
    else
      MaskUnitsAppend(UnitsOf(s[0]), CodeUnits(s[1..]));
      MaskChar(s[0]) + ReplaceUnsafe(s[1..])
  }

  /** The sanitised base name of an uploaded file: `name ? replace(strip(name)) : "gambar"`. */
  function BaseName(name: string): (r: string)
    ensures name == "" ==> r == DefaultBaseName
    ensures name != "" ==> |r| == |CodeUnits(StripExtension(name))|
    ensures forall i :: 0 <= i < |r| ==> IsSafeChar(r[i])
  {
    if name == "" then DefaultBaseName else ReplaceUnsafe(StripExtension(name))
  }

  /** A name made only of safe characters is left as it is by the replacement. */
  lemma {:induction false} ReplaceUnsafeKeepsSafe(s: string)
    requires forall i :: 0 <= i < |s| ==> IsSafeChar(s[i])
    ensures ReplaceUnsafe(s) == s
  {
    if s != [] {
      assert forall i :: 0 <= i < |s[1..]| ==> IsSafeChar(s[1..][i]) by {
        forall i | 0 <= i < |s[1..]| ensures IsSafeChar(s[1..][i]) {
          assert s[1..][i] == s[i + 1];
        }
      }
      ReplaceUnsafeKeepsSafe(s[1..]);
      assert IsSafeChar(s[0]);
      assert s == [s[0]] + s[1..];
    }
  }

  /** The replacement changes a name exactly when some character is unsafe. */
  lemma ReplaceUnsafeFixedIff(s: string)
    ensures ReplaceUnsafe(s) == s <==> forall i :: 0 <= i < |s| ==> IsSafeChar(s[i])
  {
    if forall i :: 0 <= i < |s| ==> IsSafeChar(s[i]) {
      ReplaceUnsafeKeepsSafe(s);
    } else {
      var i :| 0 <= i < |s| && !IsSafeChar(s[i]);
      MaskedIsSafe(CodeUnits(s), i);
      assert ReplaceUnsafe(s)[i] != s[i];
    }
  }

  lemma MaskedIsSafe(u: seq<int>, i: nat)
    requires i < |u|
    ensures IsSafeChar(MaskUnits(u)[i])
  {
  }

  /** On names in the Basic Multilingual Plane the replacement works character by character. */
  lemma {:induction false} ReplaceUnsafeBmp(s: string)
    requires forall i :: 0 <= i < |s| ==> IsBmp(s[i])
    ensures |ReplaceUnsafe(s)| == |s|
    ensures forall i :: 0 <= i < |s| ==> ReplaceUnsafe(s)[i] == if IsSafeChar(s[i]) then s[i] else '-'
  {
    if s != [] {
      assert forall i :: 0 <= i < |s[1..]| ==> IsBmp(s[1..][i]) by {
        forall i | 0 <= i < |s[1..]| ensures IsBmp(s[1..][i]) {
          assert s[1..][i] == s[i + 1];
        }
      }
      ReplaceUnsafeBmp(s[1..]);
      assert IsBmp(s[0]);
      var r := ReplaceUnsafe(s);
      assert r == MaskChar(s[0]) + ReplaceUnsafe(s[1..]);
      forall i | 0 <= i < |s| ensures r[i] == if IsSafeChar(s[i]) then s[i] else '-' {
        if i > 0 {
          assert r[i] == ReplaceUnsafe(s[1..])[i - 1];
          assert s[i] == s[1..][i - 1];
        }
      }
    }
  }

  /** The sanitiser is idempotent on the names it produces, except the empty one (see BaseNameEmptyIff). */
  lemma BaseNameIdempotent(name: string)
    requires BaseName(name) != ""
    ensures BaseName(BaseName(name)) == BaseName(name)
  {
    var b := BaseName(name);
    assert forall i :: !ExtensionAt(b, i);
    ReplaceUnsafeKeepsSafe(b);
  }

  /** The base name is empty exactly for a name that is a dot followed by an extension, such as ".png". */
  lemma BaseNameEmptyIff(name: string)
    ensures BaseName(name) == "" <==> ExtensionAt(name, 0)
  {
    var stripped := StripExtension(name);
    if name != "" {
      assert |BaseName(name)| == |CodeUnits(stripped)| >= |stripped|;
      if !ExtensionAt(name, 0) && (forall i :: !ExtensionAt(name, i)) {
        assert stripped == name;
      }
    }
  }

  /** Only the last extension goes, and the remaining dot becomes a dash. */
  lemma BaseNameOfDoubleExtension()
    ensures BaseName("a.tar.gz") == "a-tar"
  {
    assert ExtensionAt("a.tar.gz", 5);
    assert StripExtension("a.tar.gz") == "a.tar";
    ReplaceUnsafeBmp("a.tar");
  }

  /** A final part with a `/` in it is not an extension: only the dot and the slash are replaced. */
  lemma BaseNameOfSlashedName()
    ensures BaseName("a.b/c") == "a-b-c"
  {
    assert TailLength("a.b/c") == 1;
    assert StripExtension("a.b/c") == "a.b/c";
    ReplaceUnsafeBmp("a.b/c");
  }

  /** A name that is all extension leaves an empty base name, while the empty name gets the default. */
  lemma BaseNameEdgeCases()
    ensures BaseName(".png") == ""
    ensures BaseName("") == DefaultBaseName
  {
  }

  // ---- The object key and the viewer URL ----

  /** `new Date().toISOString().slice(0, 10)`: the date part of the ISO timestamp. */
  function DatePart(isoTimestamp: string): (d: string)
    ensures |d| == if |isoTimestamp| < 10 then |isoTimestamp| else 10
    ensures d <= isoTimestamp
  {
    SliceFromStart(isoTimestamp, 10)
  }

  /** The last path segment of a key: `baseName-uuid.extension`. */
  function FileSegment(baseName: string, uuid: string, ext: string): string {
    baseName + "-" + uuid + "." + ext
  }

  /** The object key `uploads/<date>/<baseName>-<uuid>.<extension>`. */
  function ObjectKey(date: string, baseName: string, uuid: string, ext: string): (key: string)
    ensures key == Join(["uploads", date, FileSegment(baseName, uuid, ext)], '/')
  {
    var segment := FileSegment(baseName, uuid, ext);
    var parts := ["uploads", date, segment];
    assert parts[1..] == [date, segment] && [date, segment][1..] == [segment];
    assert Join([date, segment], '/') == date + "/" + segment;
    assert Join(parts, '/') == "uploads" + "/" + (date + "/" + segment);
    "uploads/" + date + "/" + baseName + "-" + uuid + "." + ext
  }

  /** When none of the date, base name, UUID and extension has a `/`, splitting the key on `/` gives back its three parts. */
  lemma ObjectKeySegments(date: string, baseName: string, uuid: string, ext: string)
    requires '/' !in date && '/' !in uuid && '/' !in baseName && '/' !in ext
    ensures Split(ObjectKey(date, baseName, uuid, ext), '/') == ["uploads", date, FileSegment(baseName, uuid, ext)]
  {
    var parts := ["uploads", date, FileSegment(baseName, uuid, ext)];
    assert '/' !in parts[2] by {
      forall i | 0 <= i < |parts[2]| ensures parts[2][i] != '/' {
        var f := parts[2];
        assert f == baseName + "-" + uuid + "." + ext;
        if i < |baseName| { assert f[i] == baseName[i]; }
        else if i == |baseName| { }
        else if i < |baseName| + 1 + |uuid| { assert f[i] == uuid[i - |baseName| - 1]; }
        else if i == |baseName| + 1 + |uuid| { }
        else { assert f[i] == ext[i - |baseName| - 2 - |uuid|]; }
      }
    }
    SplitJoin(parts, '/');
  }

  /** `baseUrl + "/p/" + objectKey.split("/").pop()`, with `NEXT_PUBLIC_APP_URL || "http://localhost:3000"` as the base. */
  function ViewerUrl(env: Config, objectKey: string): (url: string)
    ensures IsSet(env.nextPublicAppUrl) ==> url == env.nextPublicAppUrl.value + "/p/" + Last(Split(objectKey, '/'))
    ensures !IsSet(env.nextPublicAppUrl) ==> url == LocalBaseUrl + "/p/" + Last(Split(objectKey, '/'))
  {
    OrElse(env.nextPublicAppUrl, LocalBaseUrl) + "/p/" + Last(Split(objectKey, '/'))
  }

  /** The viewer URL ends with the key's last segment, `baseName-uuid.extension`. */
  lemma ViewerUrlOfObjectKey(env: Config, date: string, baseName: string, uuid: string, ext: string)
    requires '/' !in date && '/' !in uuid && '/' !in baseName && '/' !in ext
    ensures ViewerUrl(env, ObjectKey(date, baseName, uuid, ext))
         == OrElse(env.nextPublicAppUrl, LocalBaseUrl) + "/p/" + FileSegment(baseName, uuid, ext)
  {
    ObjectKeySegments(date, baseName, uuid, ext);
  }

  /** The base name never contains `/`. */
  lemma BaseNameHasNoSlash(name: string)
    ensures '/' !in BaseName(name)
  {
  }

  // ---- The handler ----

  /** `error instanceof Error ? error.message : <fallback>`. */
  function MessageOf(t: Thrown): (r: string)
    ensures t.ErrorObject? ==> r == t.message
    ensures t.OtherValue? ==> r == FallbackErrorMessage
  {
    match t
    case ErrorObject(message) => message
    case OtherValue => FallbackErrorMessage
  }

  function ErrorResponse(status: int, message: string): Response {
    Response(status, ErrorBody(message))
  }

  /** The object key the handler stores a file under. */
  function KeyFor(file: UploadedFile, isoTimestamp: string, uuid: string): (key: string)
    ensures |key| > 8 && key[..8] == "uploads/"
    ensures var ext := Extension(ContentType(file.mimeType));
      |key| > |ext| && key[|key| - |ext| - 1..] == "." + ext
  {
    ObjectKey(DatePart(isoTimestamp), BaseName(file.name), uuid, Extension(ContentType(file.mimeType)))
  }

  /** The arguments the handler passes to `put`. */
  function PutFor(file: UploadedFile, compressed: seq<byte>, isoTimestamp: string, uuid: string): (req: PutRequest)
    ensures req.pathname == KeyFor(file, isoTimestamp, uuid)
    ensures req.body == compressed
    ensures req.access == "public"
    ensures req.contentType == ContentType(file.mimeType) && req.contentType != ""
    ensures req.cacheControlMaxAge == 31_536_000
  {
    PutRequest(KeyFor(file, isoTimestamp, uuid), compressed, "public", ContentType(file.mimeType), CacheControlMaxAge)
  }

  /**
   * `POST`: the guards in the source's order (configuration 500, missing
   * file 400, type 415, empty payload 400), then compression, storage and the
   * success body; anything an awaited call throws (reading the form or the
   * file, compressing, storing) is a 500 with its message.
   */
  function Post(env: Config, request: Request, services: Services, isoTimestamp: string, uuid: string): (resp: Response)
    ensures !IsSet(env.tinifyApiKey) ==> resp == ErrorResponse(500, MissingApiKeyMessage)
    ensures IsSet(env.tinifyApiKey) && request.form.Throws? ==> resp == ErrorResponse(500, MessageOf(request.form.thrown))
    ensures IsSet(env.tinifyApiKey) && request.form.Done? && !request.form.value.FileEntry? ==> resp == ErrorResponse(400, NoFileMessage)
    ensures IsSet(env.tinifyApiKey) && request.form.Done? && request.form.value.FileEntry?
      ==> var file := request.form.value.file;
        && (file.mimeType !in AllowedTypes ==> resp == ErrorResponse(415, BadTypeMessage))
        && (file.mimeType in AllowedTypes && file.content.Throws? ==> resp == ErrorResponse(500, MessageOf(file.content.thrown)))
        && (file.mimeType in AllowedTypes && file.content == Done([]) ==> resp == ErrorResponse(400, EmptyFileMessage))
    ensures IsSet(env.tinifyApiKey) && request.form.Done? && request.form.value.FileEntry?
      ==> var file := request.form.value.file;
        file.mimeType in AllowedTypes && file.content.Done? && |file.content.value| > 0
        ==> var compressed := services.compress(file.content.value);
          && (compressed.Throws? ==> resp == ErrorResponse(500, MessageOf(compressed.thrown)))
          && (compressed.Done? && services.put(PutFor(file, compressed.value, isoTimestamp, uuid)).Throws?
              ==> resp == ErrorResponse(500, MessageOf(services.put(PutFor(file, compressed.value, isoTimestamp, uuid)).thrown)))
    ensures resp.status in {200, 400, 415, 500}
    ensures resp.status == 200 <==> resp.body.UploadBody?
  {
    if !IsSet(env.tinifyApiKey) then ErrorResponse(500, MissingApiKeyMessage)
    else match request.form
      case Throws(t) => ErrorResponse(500, MessageOf(t))
      case Done(entry) =>
        if !entry.FileEntry? then ErrorResponse(400, NoFileMessage)
        else
          var file := entry.file;
          if file.mimeType !in AllowedTypes then ErrorResponse(415, BadTypeMessage)
          else match file.content
            case Throws(t) => ErrorResponse(500, MessageOf(t))
            case Done(original) =>
              if |original| == 0 then ErrorResponse(400, EmptyFileMessage)
              else match services.compress(original)
                case Throws(t) => ErrorResponse(500, MessageOf(t))
                case Done(compressed) =>
                  var key := KeyFor(file, isoTimestamp, uuid);
                  match services.put(PutFor(file, compressed, isoTimestamp, uuid))
                  case Throws(t) => ErrorResponse(500, MessageOf(t))
                  case Done(blobUrl) =>
                    Response(200, UploadBody(ViewerUrl(env, key), blobUrl, |compressed|, |original|))
  }

  /** The path that reaches success: every guard passes and every awaited call returns. */
  predicate Accepted(env: Config, request: Request, services: Services, isoTimestamp: string, uuid: string) {
    && IsSet(env.tinifyApiKey)
    && request.form.Done? && request.form.value.FileEntry?
    && var file := request.form.value.file;
    && file.mimeType in AllowedTypes
    && file.content.Done? && |file.content.value| > 0
    && services.compress(file.content.value).Done?
    && services.put(PutFor(file, services.compress(file.content.value).value, isoTimestamp, uuid)).Done?
  }

  /**
   * Success exactly on the accepted path, and then: the file is stored under
   * its key with public access, its own content type and a one-year cache
   * lifetime; the body carries the store's URL, the compressed and the
   * original sizes, and the viewer URL built from the key's last segment.
   */
  lemma PostSucceedsIff(env: Config, request: Request, services: Services, isoTimestamp: string, uuid: string)
    ensures Post(env, request, services, isoTimestamp, uuid).status == 200
        <==> Accepted(env, request, services, isoTimestamp, uuid)
    ensures Accepted(env, request, services, isoTimestamp, uuid) ==>
      var file := request.form.value.file;
      var compressed := services.compress(file.content.value).value;
      var put := PutFor(file, compressed, isoTimestamp, uuid);
      && put.pathname == KeyFor(file, isoTimestamp, uuid)
      && put.access == "public" && put.contentType == file.mimeType && put.cacheControlMaxAge == 31_536_000
      && put.body == compressed
      && Post(env, request, services, isoTimestamp, uuid).body
         == UploadBody(ViewerUrl(env, put.pathname), services.put(put).value, |compressed|, |file.content.value|)
  {
  }

  /**
   * On success, with a date and a UUID free of `/` (as `toISOString` and
   * `randomUUID` give them), the key has three segments and the viewer URL is
   * the base URL, `/p/`, and the key's last segment.
   */
  lemma PostSuccessUrls(env: Config, request: Request, services: Services, isoTimestamp: string, uuid: string)
    requires Accepted(env, request, services, isoTimestamp, uuid)
    requires '/' !in DatePart(isoTimestamp) && '/' !in uuid
    ensures var file := request.form.value.file;
      var baseName := BaseName(file.name);
      var ext := Extension(file.mimeType);
      && ext != FallbackExtension
      && Split(KeyFor(file, isoTimestamp, uuid), '/') == ["uploads", DatePart(isoTimestamp), FileSegment(baseName, uuid, ext)]
      && Post(env, request, services, isoTimestamp, uuid).body.url
         == OrElse(env.nextPublicAppUrl, LocalBaseUrl) + "/p/" + FileSegment(baseName, uuid, ext)
  {
    var file := request.form.value.file;
    BaseNameHasNoSlash(file.name);
    var ext := Extension(file.mimeType);
    ObjectKeySegments(DatePart(isoTimestamp), BaseName(file.name), uuid, ext);
    ViewerUrlOfObjectKey(env, DatePart(isoTimestamp), BaseName(file.name), uuid, ext);
  }

  /** Without the API key the response is fixed before the form is read: request, services, time and UUID do not matter. */
  lemma MissingApiKeyDecidesFirst(env: Config, r1: Request, r2: Request, s1: Services, s2: Services,
                                  t1: string, t2: string, u1: string, u2: string)
    requires !IsSet(env.tinifyApiKey)
    ensures Post(env, r1, s1, t1, u1) == Post(env, r2, s2, t2, u2) == ErrorResponse(500, MissingApiKeyMessage)
  {
  }

  /** The type is checked before the payload: a disallowed type gets 415 whatever the content, so an empty disallowed file gets 415, not 400. */
  lemma TypeCheckedBeforeContent(env: Config, mimeType: string, name: string, content: Attempt<seq<byte>>,
                                 services: Services, isoTimestamp: string, uuid: string)
    requires IsSet(env.tinifyApiKey) && mimeType !in AllowedTypes
    ensures Post(env, Request(Done(FileEntry(UploadedFile(mimeType, name, content)))), services, isoTimestamp, uuid)
         == ErrorResponse(415, BadTypeMessage)
  {
  }
}
