/**
 * The `GET /:filename` route (server.js:114-143): the segment is classified,
 * and only an object name is looked up upstream; the upstream answer becomes
 * a 404 or a streamed reply with a fixed set of headers.
 */
module Proxy {
  import opened JsText
  import opened ObjectName
  import opened Config

  /** Segments that belong to other routes (server.js:118). */
  const ReservedSegments: seq<string> := ["api", "files", "favicon.ico", "css", "js", "public"]

  /** None of the reserved segments starts with a digit, so none is an object name. */
  lemma ReservedNeverAccepted()
    ensures forall r :: r in ReservedSegments ==> !RegexAccepts(r)
  {
    forall r | r in ReservedSegments ensures !RegexAccepts(r) {
      ShortDigitPrefixNeverAccepted(r, 0);
    }
  }

  datatype Route =
    | ReservedRoute              // `next()` at server.js:119
    | NotObjectName              // `next()` at server.js:122
    | ObjectCandidate(name: string)

  /**
   * The ordered classification of server.js:118-122. Because no reserved
   * segment is an object name, a segment goes upstream exactly when the
   * grammar accepts it.
   */
  function Classify(name: string): (r: Route)
    ensures r.ReservedRoute? <==> name in ReservedSegments
    ensures r.ObjectCandidate? <==> RegexAccepts(name)
    ensures r.ObjectCandidate? ==> r.name == name
  {
    ReservedNeverAccepted();
    IsObjectNameMatchesRegex(name);
    if name in ReservedSegments then ReservedRoute
    else if !IsObjectName(name) then NotObjectName
    else ObjectCandidate(name)
  }

  /** `s.replace(/\/$/, '')`: one `/` at the very end is removed, no more. */
  function StripTrailingSlash(s: string): (r: string)
    ensures s == [] || s[|s| - 1] != '/' ==> r == s
    ensures s != [] && s[|s| - 1] == '/' ==> r + "/" == s
  {
    if s != [] && s[|s| - 1] == '/' then s[..|s| - 1] else s
  }

  const PublicObjectPath: string := "/storage/v1/object/public/"

  /**
   * The upstream address of server.js:125. The bucket segment is the raw
   * `SUPABASE_BUCKET` variable, interpolated as `undefined` when unset.
   */
  function UpstreamAddress(baseUrl: string, bucket: Option<string>, encodedName: string): (u: string)
    ensures var prefix := StripTrailingSlash(baseUrl) + PublicObjectPath + Interpolate(bucket) + "/";
      |prefix| <= |u| && u[..|prefix|] == prefix && u[|prefix|..] == encodedName
  {
    var prefix := StripTrailingSlash(baseUrl) + PublicObjectPath + Interpolate(bucket) + "/";
    assert (prefix + encodedName)[..|prefix|] == prefix;
    assert (prefix + encodedName)[|prefix|..] == encodedName;
    prefix + encodedName
  }

  /** A base URL written with or without one trailing `/` gives the same address. */
  lemma TrailingSlashIgnored(baseUrl: string, bucket: Option<string>, encodedName: string)
    requires baseUrl == [] || baseUrl[|baseUrl| - 1] != '/'
    ensures UpstreamAddress(baseUrl + "/", bucket, encodedName) == UpstreamAddress(baseUrl, bucket, encodedName)
  {
    var b := baseUrl + "/";
    assert b[|b| - 1] == '/';
    ConcatCancelRight(StripTrailingSlash(b), baseUrl, "/");
  }

  /**
   * The proxy looks in the same bucket the upload route writes to only when
   * `SUPABASE_BUCKET` is set to a non-empty value: unset, the address names
   * a bucket called `undefined`; empty, it names no bucket at all, while
   * uploads go to `zaynix-files` in both cases.
   */
  lemma ProxyBucketMatchesUploadBucketIff(env: Env)
    ensures Interpolate(env.supabaseBucket) == Bucket(env)
        <==> env.supabaseBucket.Some? && env.supabaseBucket.value != []
    ensures env.supabaseBucket.None? ==> Interpolate(env.supabaseBucket) == "undefined" && Bucket(env) == DefaultBucket
  {
  }

  /** What the upstream fetch gives: a rejected promise, or a response. */
  datatype Upstream =
    | Unreachable
    | Response(ok: bool, contentType: Option<string>)

  const ContentType: string := "Content-Type"
  const CacheControl: string := "Cache-Control"
  const ContentTypeOptions: string := "X-Content-Type-Options"
  const OctetStream: string := "application/octet-stream"
  const ImmutableForAYear: string := "public, max-age=31536000, immutable"

  /** The headers set before streaming (server.js:132-135). */
  function StreamHeaders(upstreamType: Option<string>): (h: map<string, string>)
    ensures h.Keys == {ContentType, CacheControl, ContentTypeOptions}
    ensures h[ContentType] != []
    ensures upstreamType.Some? && upstreamType.value != [] ==> h[ContentType] == upstreamType.value
    ensures upstreamType.None? || upstreamType.value == [] ==> h[ContentType] == OctetStream
    ensures h[CacheControl] == ImmutableForAYear && h[ContentTypeOptions] == "nosniff"
  {
    map[ContentType := OrElse(upstreamType, OctetStream),
        CacheControl := ImmutableForAYear,
        ContentTypeOptions := "nosniff"]
  }

  datatype ProxyReply =
    | Next                              // pass to the next handler
    | NextWithError                     // `next(err)`: a thrown error or a failed fetch
    | Send(status: nat, body: string)
    | Stream(headers: map<string, string>)  // status 200, upstream body piped through

  /** The reply and, when one was made, the address fetched. */
  datatype ProxyOutcome = ProxyOutcome(fetched: Option<string>, reply: ProxyReply)

  /**
   * The route handler. An unset `SUPABASE_URL` makes `.replace` throw before
   * any fetch, which the `catch` turns into `next(err)`.
   */
  function HandleProxy(env: Env, encode: string -> string, fetch: string -> Upstream, name: string): (o: ProxyOutcome)
    ensures o.fetched.Some? <==> RegexAccepts(name) && env.supabaseUrl.Some?
    ensures o.fetched.Some? ==>
      o.fetched.value == UpstreamAddress(env.supabaseUrl.value, env.supabaseBucket, encode(name))
    ensures !RegexAccepts(name) ==> o.reply == Next
    ensures o.reply == NextWithError <==>
      RegexAccepts(name) && (env.supabaseUrl.None? || fetch(o.fetched.value) == Unreachable)
    ensures o.reply.Send? <==> o.fetched.Some? && fetch(o.fetched.value).Response? && !fetch(o.fetched.value).ok
    ensures o.reply.Send? ==> o.reply == Send(404, "Not found")
    ensures o.reply.Stream? <==> o.fetched.Some? && fetch(o.fetched.value).Response? && fetch(o.fetched.value).ok
    ensures o.reply.Stream? ==> o.reply.headers == StreamHeaders(fetch(o.fetched.value).contentType)
  {
    match Classify(name)
    case ReservedRoute => ProxyOutcome(None, Next)
    case NotObjectName => ProxyOutcome(None, Next)
    case ObjectCandidate(n) =>
      match env.supabaseUrl
      case None => ProxyOutcome(None, NextWithError)
      case Some(base) =>
        var address := UpstreamAddress(base, env.supabaseBucket, encode(n));
        match fetch(address)
        case Unreachable => ProxyOutcome(Some(address), NextWithError)
        case Response(ok, upstreamType) =>
          if !ok then ProxyOutcome(Some(address), Send(404, "Not found"))
          else ProxyOutcome(Some(address), Stream(StreamHeaders(upstreamType)))
  }

  /**
   * A segment that is reserved or not an object name falls through without a
   * fetch, whatever the environment and whatever the upstream would answer.
   */
  lemma FallThroughIgnoresEnvAndUpstream(
    env1: Env, env2: Env, encode1: string -> string, encode2: string -> string,
    fetch1: string -> Upstream, fetch2: string -> Upstream, name: string)
    requires !Classify(name).ObjectCandidate?
    ensures HandleProxy(env1, encode1, fetch1, name) == HandleProxy(env2, encode2, fetch2, name)
    ensures HandleProxy(env1, encode1, fetch1, name) == ProxyOutcome(None, Next)
  {
  }

  /** Only segments of the object-name shape are ever fetched; `abc.txt` and anything holding `/` are not. */
  lemma FetchedOnlyObjectNames(env: Env, encode: string -> string, fetch: string -> Upstream, name: string)
    requires HandleProxy(env, encode, fetch, name).fetched.Some?
    ensures name !in ReservedSegments && name != "abc.txt" && '/' !in name
    ensures |name| >= 11 && AllInNameClass(name)
  {
    ReservedNeverAccepted();
    PlainTextNameRejected();
    AcceptedShape(name);
  }
}
