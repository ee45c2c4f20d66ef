/**
 * The helpers of src/lib/blob.ts: the storage token, the public URL of a
 * stored object, the reversible public identifier of an object key, and the
 * application's base URL.
 */
module Blob {
  import opened Basics
  import opened Env
  import Utf8
  import Base64Url

  const MissingTokenMessage: string := "Konfigurasi BLOB_READ_WRITE_TOKEN belum tersedia."
  const LocalBaseUrl: string := "http://localhost:3000"

  /** `getBlobToken`: the storage token, or the configuration error it throws when the token is unset or empty. */
  function GetBlobToken(env: Config): (r: Result<string>)
    ensures r.Ok? <==> IsSet(env.blobReadWriteToken)
    ensures r.Ok? ==> r.value == env.blobReadWriteToken.value && r.value != ""
    ensures r.Fail? ==> r.message == MissingTokenMessage
  {
    if IsSet(env.blobReadWriteToken) then Ok(env.blobReadWriteToken.value) else Fail(MissingTokenMessage)
  }

  /** The public origin and leading slash of the store that a token names. */
  function BlobOrigin(token: string): string {
    "https://vercel_blob_rw_" + token + ".public.blob.vercel-storage.com/"
  }

  /** `getBlobUrl`: the public URL of the object at `path`; it fails loudly, never with a URL, when the token is missing. */
  function GetBlobUrl(env: Config, path: string): (r: Result<string>)
    ensures r.Fail? <==> !IsSet(env.blobReadWriteToken)
    ensures r.Fail? ==> r.message == MissingTokenMessage
    ensures r.Ok? ==> r.value == BlobOrigin(env.blobReadWriteToken.value) + path
  {
    match GetBlobToken(env)
    case Fail(message) => Fail(message)
    case Ok(token) => Ok(BlobOrigin(token) + path)
  }

  /** The path is an unchanged suffix of the URL, after the store's origin. */
  lemma BlobUrlEndsWithPath(env: Config, path: string)
    requires GetBlobUrl(env, path).Ok?
    ensures var url := GetBlobUrl(env, path).value;
      |url| > |path| && url[|url| - |path|..] == path
      && url[..|url| - |path|] == BlobOrigin(env.blobReadWriteToken.value)
  {
    var url := GetBlobUrl(env, path).value;
    assert url == BlobOrigin(env.blobReadWriteToken.value) + path;
  }

  /** Under one configuration, distinct paths give distinct URLs. */
  lemma BlobUrlInjective(env: Config, p: string, q: string)
    requires GetBlobUrl(env, p).Ok? && GetBlobUrl(env, p) == GetBlobUrl(env, q)
    ensures p == q
  {
    BlobUrlEndsWithPath(env, p);
    BlobUrlEndsWithPath(env, q);
  }

  /** `encodeBlobPath`: the unpadded base64url encoding of the key's UTF-8 bytes. */
  function EncodeBlobPath(objectKey: string): (id: string)
    ensures forall i :: 0 <= i < |id| ==> Base64Url.IsUrlSafe(id[i])
    ensures '=' !in id
    ensures |id| == (4 * |Utf8.Encode(objectKey)| + 2) / 3
    ensures Base64Url.IsCanonical(id)
  {
    Base64Url.EncodeIsCanonical(Utf8.Encode(objectKey));
    Base64Url.Encode(Utf8.Encode(objectKey))
  }

  /**
   * `decodeBlobPath`: the key an identifier stands for. Decoding a string
   * never throws (code units whose low byte is outside both alphabets are
   * skipped, and ill-formed UTF-8 becomes U+FFFD), so the `null` of the
   * `catch` is never returned.
   */
  function DecodeBlobPath(id: string): (r: Option<string>)
    ensures r.Some?
  {
    Some(Utf8.Decode(Base64Url.Decode(id)))
  }

  /** Round trip: every object key is recovered from its identifier. */
  lemma DecodeEncodeBlobPath(objectKey: string)
    ensures DecodeBlobPath(EncodeBlobPath(objectKey)) == Some(objectKey)
  {
    Base64Url.DecodeEncode(Utf8.Encode(objectKey));
    Utf8.DecodeEncode(objectKey);
  }

  /** Distinct keys get distinct identifiers. */
  lemma EncodeBlobPathInjective(k1: string, k2: string)
    requires EncodeBlobPath(k1) == EncodeBlobPath(k2)
    ensures k1 == k2
  {
    DecodeEncodeBlobPath(k1);
    DecodeEncodeBlobPath(k2);
  }

  /** An ASCII key of n characters, as every key the upload handler builds, gets an identifier of ⌈4n/3⌉ characters. */
  lemma EncodeBlobPathAsciiLength(objectKey: string)
    requires Utf8.IsAscii(objectKey)
    ensures |EncodeBlobPath(objectKey)| == (4 * |objectKey| + 2) / 3
  {
    Utf8.EncodeAscii(objectKey);
  }

  /** `getAppBaseUrl`: the explicit application URL, else the deployment host over HTTPS, else the local development server. */
  function GetAppBaseUrl(env: Config): (r: string)
    ensures IsSet(env.nextPublicAppUrl) ==> r == env.nextPublicAppUrl.value
    ensures !IsSet(env.nextPublicAppUrl) && IsSet(env.vercelUrl) ==> r == "https://" + env.vercelUrl.value
    ensures !IsSet(env.nextPublicAppUrl) && !IsSet(env.vercelUrl) ==> r == LocalBaseUrl
  {
    if IsSet(env.nextPublicAppUrl) then env.nextPublicAppUrl.value
    else if IsSet(env.vercelUrl) then "https://" + env.vercelUrl.value
    else LocalBaseUrl
  }

  /** The base URL depends on nothing but the two URL variables, and on VERCEL_URL only while NEXT_PUBLIC_APP_URL is unset or empty. */
  lemma AppBaseUrlDependsOnlyOnUrls(env: Config, other: Config)
    requires env.nextPublicAppUrl == other.nextPublicAppUrl
    requires env.vercelUrl == other.vercelUrl || IsSet(env.nextPublicAppUrl)
    ensures GetAppBaseUrl(env) == GetAppBaseUrl(other)
  {
  }

  /** The base URL is never empty. */
  lemma AppBaseUrlNonEmpty(env: Config)
    ensures GetAppBaseUrl(env) != ""
  {
  }
}
