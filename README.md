# webfoto: upload handler and blob path helpers

webfoto is a small Next.js service. It compresses an uploaded image with
Tinify, stores the result in Vercel Blob under a dated object key, and answers
with the URL of a viewer page. This project models the two pieces of its logic
that stand on their own:

- **`src/lib/blob.ts`**, modules `Blob`, `Base64Url` and `Utf8`:
  - the storage token and the public URL of a stored object, which fails
    loudly when the token is missing;
  - the reversible public identifier of an object key, which is the unpadded
    base64url encoding (section 5 of RFC 4648) of the key's UTF-8 bytes;
  - the application's base URL, chosen by a three-way precedence.
- **`src/app/api/upload/route.ts`**, modules `Upload` and `JsString`: the
  `POST` handler as one pure function. It covers
  - the guards in the order the source applies them: configuration (500),
    missing file (400), type (415), then empty payload (400);
  - the type allow-list and the extension table;
  - the file-name sanitiser;
  - the object key and the viewer URL;
  - the response bodies.
  Anything an awaited call throws becomes a 500 carrying the error's message,
  or the fixed fallback text when the thrown value is not an `Error`.

The process environment is an explicit `Env.Config` record of optional strings.
A variable counts as set only when it is present and non-empty, which is
JavaScript truthiness.

External effects are inputs to the model:
- the awaited form, file content, compression and storage calls are
  `Attempt` values or function parameters, each either a value or a thrown
  error;
- the clock (`new Date().toISOString()`) and `randomUUID()` are string
  parameters.

JavaScript strings are sequences of UTF-16 code units. `JsString.CodeUnits`
gives a Dafny string's code units, and the sanitiser's regular expressions and
the base64url reader work on them. `JsString.SliceFromStart`, which
`Upload.DatePart` uses for `slice(0, 10)`, counts Dafny characters instead;
those are the code units on the ASCII timestamp `toISOString()` gives.

## Model

| member | source | states |
|---|---|---|
| Blob.GetBlobToken | src/lib/blob.ts:1-7 | The token is returned exactly when BLOB_READ_WRITE_TOKEN is set and non-empty; otherwise the fixed configuration error. |
| Blob.GetBlobUrl | src/lib/blob.ts:9-12 | Fails, with the token error and never with a URL, exactly when the token is unset. Otherwise the URL is the store origin for the token followed by the path. |
| Blob.BlobUrlEndsWithPath | src/lib/blob.ts:9-12 | The path is an unchanged suffix of the URL, and what precedes it is the store's origin and slash. |
| Blob.BlobUrlInjective | src/lib/blob.ts:9-12 | Under one configuration, distinct paths give distinct URLs. |
| Blob.EncodeBlobPath | src/lib/blob.ts:14-16 | The identifier contains only `A-Z a-z 0-9 - _` and never `=`. Its length is ⌈4n/3⌉ for the key's n UTF-8 bytes, and it is a canonical encoding. |
| Blob.DecodeBlobPath | src/lib/blob.ts:18-24 | Never returns null: decoding a string cannot throw. |
| Blob.DecodeEncodeBlobPath | src/lib/blob.ts:14-24 | Round trip: decoding the identifier of any key gives the key back. |
| Blob.EncodeBlobPathInjective | src/lib/blob.ts:14-16 | Distinct keys get distinct identifiers. |
| Blob.EncodeBlobPathAsciiLength | src/lib/blob.ts:14-16 | An ASCII key of n characters, as every key the handler builds, has an identifier of (4n+2)/3 characters. |
| Blob.GetAppBaseUrl | src/lib/blob.ts:26-34 | A set NEXT_PUBLIC_APP_URL wins as it is; otherwise a set VERCEL_URL gives `https://` + host; otherwise `http://localhost:3000`. |
| Blob.AppBaseUrlDependsOnlyOnUrls | src/lib/blob.ts:26-34 | The base URL depends only on the two URL variables, and ignores VERCEL_URL while NEXT_PUBLIC_APP_URL is set. |
| Blob.AppBaseUrlNonEmpty | src/lib/blob.ts:26-34 | The base URL is never empty. |
| Base64Url.CharOf | src/lib/blob.ts:15 | Every sextet maps to a character of the URL- and filename-safe alphabet. |
| Base64Url.ValueOf | src/lib/blob.ts:20 | On the URL-safe alphabet the decoder's reading inverts the encoder's table. The standard alphabet's `+` and `/` read as 62 and 63, and exactly the characters of neither alphabet have no value. |
| Base64Url.Encode | src/lib/blob.ts:15 | The output length is (4n+2)/3, every character is URL-safe, and there is no padding. |
| Base64Url.EncodeLengthIsCeiling | src/lib/blob.ts:15 | (4n+2)/3 is ⌈4n/3⌉, the fewest sextets that hold 8n bits. |
| Base64Url.Rfc4648OneByteVector | src/lib/blob.ts:15 | "f" encodes to "Zg", the test vector of section 10 of RFC 4648 without padding. |
| Base64Url.Rfc4648TwoByteVector | src/lib/blob.ts:15 | "fo" encodes to "Zm8". |
| Base64Url.Rfc4648FoobarVector | src/lib/blob.ts:15 | "foobar" encodes to "Zm9vYmFy". |
| Base64Url.DecodeEncode | src/lib/blob.ts:15-20 | Decoding an encoding gives every byte sequence back. |
| Base64Url.EncodeIsCanonical | src/lib/blob.ts:15 | Every encoding is canonical: it has no lone final sextet and no stray low bits. |
| Base64Url.EncodeDecode | src/lib/blob.ts:15-20 | Every canonical string is the encoding of what it decodes to, so the codec is a bijection between bytes and canonical strings. |
| Base64Url.EncodeInjective | src/lib/blob.ts:15 | Distinct byte sequences have distinct encodings. |
| Base64Url.FromToSextets | src/lib/blob.ts:15-20 | Regrouping bytes into sextets and back is the identity. |
| Base64Url.ToFromSextets | src/lib/blob.ts:15-20 | Regrouping canonical sextets into bytes and back is the identity. |
| Base64Url.ScanUnits | src/lib/blob.ts:20 | The lenient read of code units: every unit gives at most one sextet, so there are never more sextets than units. |
| Base64Url.Scan | src/lib/blob.ts:20 | A string is read through its UTF-16 code units, giving at most one sextet per unit. |
| Base64Url.Decode | src/lib/blob.ts:20 | `Buffer.from(s, "base64url")`: three bytes per four sextets read, so at most three bytes per four code units. |
| Base64Url.ScanBmpLowByte | src/lib/blob.ts:20 | The decoder reads a character of the Basic Multilingual Plane as the character of its low byte. |
| Base64Url.WideCharsReadAsLowBytes | src/lib/blob.ts:20 | `ŁŁ` (U+0141) is read, and decodes, exactly as `AA` does. |
| Base64Url.SurrogateEndsInput | src/lib/blob.ts:20 | In `QQ😀QQ` the emoji's high surrogate U+D83D reads as `=`, so the string is read, and decodes, as `QQ` alone. |
| Utf8.EncodeChar | src/lib/blob.ts:15 | One to four bytes per scalar value, and one byte exactly for ASCII. |
| Utf8.Encode | src/lib/blob.ts:15 | n characters take between n and 4n bytes. |
| Utf8.Decode | src/lib/blob.ts:20 | Lenient decoding gives at most one character per byte. |
| Utf8.DecodeEncodeChar | src/lib/blob.ts:15-20 | Decoding reads one encoded character off the front of any byte sequence. |
| Utf8.DecodeEncode | src/lib/blob.ts:15-20 | Decoding the UTF-8 encoding of any string gives the string back. |
| Utf8.EncodeInjective | src/lib/blob.ts:15 | Distinct strings have distinct UTF-8 encodings. |
| Utf8.EncodeAscii | src/lib/blob.ts:15 | On ASCII text the encoding is one byte per character, holding the character's code. |
| Env.OrElse | src/app/api/upload/route.ts:74 | JavaScript's logical or on a string and a fallback: the variable when it is set and non-empty, otherwise the fallback. |
| Upload.ContentType | src/app/api/upload/route.ts:60 | A non-empty type is kept, the empty type becomes the fallback `application/octet-stream`, and the result is never empty. |
| Upload.Extension | src/app/api/upload/route.ts:12-16 | jpeg→jpg, png→png, webp→webp. The fallback `bin` is returned exactly for types outside the allow-list. An extension is never empty and has no `/` or `.`. |
| Upload.TailLength | src/app/api/upload/route.ts:63 | The longest suffix free of `/` and `.`, and the character just before it is one of them. |
| Upload.StripExtension | src/app/api/upload/route.ts:63 | If the name ends in `.xxx`, with xxx non-empty and free of `/` and `.`, the result is the name up to that dot; otherwise the name is unchanged. |
| Upload.MaskChar | src/app/api/upload/route.ts:63 | A character becomes the masked form of its UTF-16 code units. |
| Upload.ReplaceUnsafe | src/app/api/upload/route.ts:63 | Every UTF-16 code unit outside `[A-Za-z0-9_-]` becomes `-`, and safe ones are kept. |
| Upload.ReplaceUnsafeKeepsSafe | src/app/api/upload/route.ts:63 | A name of safe characters is left unchanged. |
| Upload.ReplaceUnsafeFixedIff | src/app/api/upload/route.ts:63 | The replacement leaves a name unchanged if and only if every character is safe. |
| Upload.ReplaceUnsafeBmp | src/app/api/upload/route.ts:63 | On names in the Basic Multilingual Plane, the replacement keeps the length and works character by character. |
| Upload.BaseName | src/app/api/upload/route.ts:62-64 | An empty name gives `gambar`. Otherwise the result has the JavaScript length of the stripped name, and every character is in `[A-Za-z0-9_-]`. |
| Upload.BaseNameIdempotent | src/app/api/upload/route.ts:62-64 | Sanitising a non-empty base name again changes nothing. |
| Upload.BaseNameEmptyIff | src/app/api/upload/route.ts:62-64 | The base name is empty exactly when the name is a dot followed by an extension, such as `.png`. |
| Upload.BaseNameOfDoubleExtension | src/app/api/upload/route.ts:62-64 | `a.tar.gz` gives `a-tar`: only the last extension is dropped, and the remaining dot becomes a dash. |
| Upload.BaseNameOfSlashedName | src/app/api/upload/route.ts:62-64 | `a.b/c` gives `a-b-c`: a final part containing `/` is not an extension. |
| Upload.BaseNameEdgeCases | src/app/api/upload/route.ts:62-64 | `.png` gives the empty string, while the empty name gives the default `gambar`. |
| Upload.BaseNameHasNoSlash | src/app/api/upload/route.ts:62-64 | A base name never contains `/`. |
| Upload.DatePart | src/app/api/upload/route.ts:65 | `slice(0, 10)`: exactly the first min(10, length) characters, a prefix of the timestamp. |
| Upload.ObjectKey | src/app/api/upload/route.ts:65 | The key is `uploads`, the date and `baseName-uuid.ext`, joined by `/`. |
| Upload.ObjectKeySegments | src/app/api/upload/route.ts:62-65 | When the date, the base name, the UUID and the extension contain no `/`, splitting the key on `/` gives exactly its three segments. |
| Upload.ViewerUrl | src/app/api/upload/route.ts:74-75 | The URL is a set NEXT_PUBLIC_APP_URL, else `http://localhost:3000`, then `/p/`, then the key's last `/`-segment. VERCEL_URL is never consulted. |
| Upload.ViewerUrlOfObjectKey | src/app/api/upload/route.ts:74-75 | For a key the handler builds, the viewer URL ends in `/p/baseName-uuid.ext`. |
| Upload.MessageOf | src/app/api/upload/route.ts:85-88 | A thrown `Error` gives its own message, any other thrown value the fixed fallback text. |
| Upload.KeyFor | src/app/api/upload/route.ts:60-65 | The key of an upload starts with `uploads/` and ends with `.` and the extension of its content type. |
| Upload.PutFor | src/app/api/upload/route.ts:67-71 | `put` gets the upload's key, the compressed bytes, public access, the non-empty content type and a one-year cache lifetime of 31,536,000 seconds. |
| Upload.Post | src/app/api/upload/route.ts:22-91 | The guards decide in order: missing API key →500, form throws →500 with its message, no file →400, disallowed type →415, content throws →500, empty payload →400. Past them, a throw from compression or from `put` is a 500 with its message (or the fixed fallback for a non-Error). The status is always one of 200, 400, 415, 500, and it is 200 exactly when the body is an upload body. |
| Upload.PostSucceedsIff | src/app/api/upload/route.ts:58-82 | The status is 200 if and only if every guard passes and every awaited call returns. The object is then stored with public access, its own type and a one-year cache lifetime. The body carries the viewer URL, the store's URL, the compressed length and the original length. |
| Upload.PostSuccessUrls | src/app/api/upload/route.ts:41-75 | On success the extension is never `bin`, the key splits into three segments, and the viewer URL is the base URL, `/p/` and `baseName-uuid.ext`. |
| Upload.MissingApiKeyDecidesFirst | src/app/api/upload/route.ts:23-28 | Without the API key the response is the fixed 500, whatever the request, the services, the time or the UUID. |
| Upload.TypeCheckedBeforeContent | src/app/api/upload/route.ts:41-56 | A disallowed type gets 415 whatever the content, so an empty disallowed file gets 415, not 400. |
| JsString.UnitsOf | src/app/api/upload/route.ts:63 | A character takes one UTF-16 code unit inside the Basic Multilingual Plane. Outside it takes a high and a low surrogate. |
| JsString.CodeUnits | src/app/api/upload/route.ts:63 | A string of n characters has between n and 2n code units. |
| JsString.SliceFromStart | src/app/api/upload/route.ts:65 | `slice(0, n)` is a prefix of length min(n, length). |
| JsString.Split | src/app/api/upload/route.ts:75 | `split`: at least one part, no part contains the separator, and the parts joined by the separator give the string back. |
| JsString.SplitJoin | src/app/api/upload/route.ts:75 | Splitting undoes joining parts that are free of the separator. |

## Left out

- `src/app/page.tsx` (the upload form) is not part of this model. It is React UI state, `fetch`, the clipboard and timers, and its size formatting uses floating point.
- `src/app/p/[id]/page.tsx` (the viewer page) is not part of this model. It is the only caller of `decodeBlobPath`, `getBlobUrl` and `getAppBaseUrl`. The handler never calls `encodeBlobPath`: its viewer URL uses the key's last segment, and the model keeps the two apart as the code does.
- `types/tinify.d.ts` declares a foreign module and has no logic.
- Tinify compression and Vercel Blob `put` are function parameters that return a value or throw. Nothing is claimed about what they compute, for example that compression makes the file smaller.
- `request.formData()` and `file.arrayBuffer()` are given as their outcomes. A form entry is no entry, a text entry or a file.
- `randomUUID()` and `new Date().toISOString()` are parameters. The UUID and date having no `/` is a requires of the lemmas that need it.
- The module-level `tinify.key` assignment (route.ts:18-20) is global state of a foreign library. Only its guard, the TINIFY_API_KEY check, is modelled.
- `console.error` logging in the `catch` is left out. So are the JSON serialisation of `NextResponse.json`, and `dynamic = "force-dynamic"`, which is a framework setting.
- The regular-expression engine is not modelled. Its two expressions are written directly: `StripExtension` for `/\.[^/.]+$/` and `ReplaceUnsafe` for `/[^a-z0-9_-]/gi`. The second works on UTF-16 code units.
- Strings containing lone UTF-16 surrogates cannot be written as Dafny strings. Encoding such a string, which Node does with U+FFFD, is left out.
- Keys such as `__proto__`, which a plain JavaScript object literal would resolve through its prototype in `EXTENSION_BY_TYPE`, are unreachable. The lookup only happens after the allow-list check, so the extension table is a plain map.
- DecodeBlobPath: its contract states only that it never returns null. On malformed input the model follows Node's lenient decoder: each UTF-16 code unit is cut to its low byte, units whose byte is outside both alphabets are skipped, the first unit whose byte is `=` ends the input, a lone final sextet is dropped, and ill-formed UTF-8 becomes U+FFFD. Beyond the round trip on canonical strings, only the examples `WideCharsReadAsLowBytes` and `SurrogateEndsInput` are stated for such input.
- Utf8.Decode: its contract bounds only the length. Its meaning is stated by the round trip `Utf8.DecodeEncode`, not for ill-formed bytes.
- BaseNameIdempotent: requires a non-empty base name. A name such as `.png` sanitises to the empty string, and sanitising that again gives `gambar`, so idempotence fails there (see `Upload.BaseNameEmptyIff`).
