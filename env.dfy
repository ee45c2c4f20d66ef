/**
 * The process environment the two core files read, passed explicitly:
 * each variable is either unset or holds a string.
 */
module Env {
  import opened Basics

  datatype Config = Config(
    tinifyApiKey: Option<string>,       // TINIFY_API_KEY
    blobReadWriteToken: Option<string>, // BLOB_READ_WRITE_TOKEN
    nextPublicAppUrl: Option<string>,   // NEXT_PUBLIC_APP_URL
    vercelUrl: Option<string>           // VERCEL_URL
  )

  /** JavaScript truthiness of an environment read: unset and the empty string are both falsy. */
  predicate IsSet(v: Option<string>) {
    v.Some? && v.value != ""
  }

  /** The expression `v || fallback`. */
  function OrElse(v: Option<string>, fallback: string): (r: string)
    ensures IsSet(v) ==> r == v.value
    ensures !IsSet(v) ==> r == fallback
  {
    if IsSet(v) then v.value else fallback
  }
}
