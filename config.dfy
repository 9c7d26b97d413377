/**
 * The environment the gateway reads. Each variable is either set to a
 * string (possibly empty) or unset.
 */
module Config {
  import opened JsText

  datatype Env = Env(
    supabaseUrl: Option<string>,     // SUPABASE_URL
    supabaseBucket: Option<string>,  // SUPABASE_BUCKET
    deleteToken: Option<string>)     // DELETE_TOKEN

  const DefaultBucket: string := "zaynix-files"
  const DefaultDeleteToken: string := "changeme_delete_token"

  /** `BUCKET` (server.js:17): the configured bucket, or `zaynix-files` when unset or empty. */
  function Bucket(env: Env): (b: string)
    ensures b != []
    ensures b == DefaultBucket <==> env.supabaseBucket.None? || env.supabaseBucket.value in {[], DefaultBucket}
    ensures b != DefaultBucket ==> env.supabaseBucket == Some(b)
  {
    OrElse(env.supabaseBucket, DefaultBucket)
  }

  /** `DELETE_TOKEN` (server.js:19): the configured secret, or `changeme_delete_token` when unset or empty. */
  function DeleteSecret(env: Env): (t: string)
    ensures t != []
    ensures t == DefaultDeleteToken <==> env.deleteToken.None? || env.deleteToken.value in {[], DefaultDeleteToken}
    ensures t != DefaultDeleteToken ==> env.deleteToken == Some(t)
  {
    OrElse(env.deleteToken, DefaultDeleteToken)
  }
}
