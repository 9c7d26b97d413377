/**
 * The `POST /api/upload` route (server.js:37-67): name the object, store it
 * once, and answer with the name and the public URL under this host.
 */
module Upload {
  import opened JsText
  import opened NodePath
  import opened Naming
  import opened ObjectName
  import opened Config
  import opened Store
  import opened Proxy

  /** The file multer hands the route. */
  datatype UploadedFile = UploadedFile(originalname: Option<string>, buffer: seq<bv8>, size: nat, mimetype: string)

  /** The `upload` call made: bucket, object name and options (server.js:44-48). */
  datatype PutCall = PutCall(bucket: string, path: string, body: seq<bv8>, cacheControl: string, upsert: bool, contentType: string)

  /** `error.message || error` (server.js:52). */
  datatype UploadDetail = MessageText(text: string) | WholeError

  function UploadDetailOf(message: Option<string>): (d: UploadDetail)
    ensures d.MessageText? <==> message.Some? && message.value != []
    ensures d.MessageText? ==> d.text == message.value
  {
    if message.Some? && message.value != [] then MessageText(message.value) else WholeError
  }

  datatype UploadReply =
    | NoFile                              // 400 { error: 'No file provided' }
    | UploadFailed(detail: UploadDetail)  // 500 { error: 'Upload failed', detail }
    | Uploaded(filename: string, url: string, size: nat, mimetype: string)  // 200
    | InternalError                       // 500 { error: 'Internal server error' }

  function UploadStatus(r: UploadReply): (status: nat)
    ensures status in {200, 400, 500}
    ensures status == 200 <==> r.Uploaded?
    ensures status == 400 <==> r.NoFile?
  {
    match r
    case NoFile => 400
    case UploadFailed(_) => 500
    case Uploaded(_, _, _, _) => 200
    case InternalError => 500
  }

  /**
   * `${req.protocol}://${req.get('host')}/${encodeURIComponent(filename)}`
   * (server.js:56): the object's address on this gateway, served by the proxy
   * route. A missing `Host` header is interpolated as `undefined`.
   */
  function PublicUrl(protocol: string, host: Option<string>, encodedName: string): (url: string)
    ensures var origin := protocol + "://" + Interpolate(host) + "/";
      |origin| <= |url| && url[..|origin|] == origin && url[|origin|..] == encodedName
  {
    var origin := protocol + "://" + Interpolate(host) + "/";
    assert (origin + encodedName)[..|origin|] == origin;
    assert (origin + encodedName)[|origin|..] == encodedName;
    origin + encodedName
  }

  datatype UploadOutcome = UploadOutcome(stored: Option<PutCall>, reply: UploadReply)

  /**
   * The route handler. Without a file nothing is stored; otherwise exactly one
   * `upload` call is made with the generated name, and the reply follows its
   * result. A rejected call falls into the `catch`.
   */
  function HandleUpload(
    env: Env, now: nat, sanitize: string -> string, encode: string -> string,
    file: Option<UploadedFile>, protocol: string, host: Option<string>, store: StoreResult)
    : (o: UploadOutcome)
    ensures file.None? ==> o == UploadOutcome(None, NoFile)
    ensures o.stored.Some? <==> file.Some?
    ensures file.Some? ==> (o.stored.value ==
      PutCall(Bucket(env), UploadObjectName(now, file.value.originalname, sanitize), file.value.buffer,
              "3600", false, file.value.mimetype))
    ensures o.reply.Uploaded? <==> file.Some? && store == StoreOk
    ensures o.reply.Uploaded? ==>
      && o.reply.filename == o.stored.value.path
      && o.reply.url == PublicUrl(protocol, host, encode(o.reply.filename))
      && o.reply.size == file.value.size && o.reply.mimetype == file.value.mimetype
    ensures file.Some? && store.StoreError? ==> o.reply == UploadFailed(UploadDetailOf(store.message))
    ensures file.Some? && store.StoreThrew? ==> o.reply == InternalError
  {
    match file
    case None => UploadOutcome(None, NoFile)
    case Some(f) =>
      var filename := UploadObjectName(now, f.originalname, sanitize);
      var call := PutCall(Bucket(env), filename, f.buffer, "3600", false, f.mimetype);
      match store
      case StoreOk =>
        UploadOutcome(Some(call), Uploaded(filename, PublicUrl(protocol, host, encode(filename)), f.size, f.mimetype))
      case StoreError(message) => UploadOutcome(Some(call), UploadFailed(UploadDetailOf(message)))
      case StoreThrew => UploadOutcome(Some(call), InternalError)
  }

  /**
   * Every store call sends the file's bytes as received, asks the store not
   * to overwrite an existing object (`upsert: false`) and caches for an hour.
   */
  lemma UploadCallOptions(
    env: Env, now: nat, sanitize: string -> string, encode: string -> string,
    file: Option<UploadedFile>, protocol: string, host: Option<string>, store: StoreResult)
    requires HandleUpload(env, now, sanitize, encode, file, protocol, host, store).stored.Some?
    ensures var call := HandleUpload(env, now, sanitize, encode, file, protocol, host, store).stored.value;
      !call.upsert && call.cacheControl == "3600" && call.bucket != [] && call.body == file.value.buffer
  {
  }

  /**
   * A sufficient condition for an uploaded object to be reachable through
   * the proxy route: a timestamp of at least nine digits, a safe base name
   * made of name characters, and an extension of letters and digits.
   */
  lemma UploadedNameServable(now: nat, originalname: Option<string>, sanitize: string -> string)
    requires now >= 100000000
    requires var orig := OriginalName(originalname);
      var ext := UploadExtension(orig);
      && AllInNameClass(SafeName(sanitize, Basename(orig, ext)))
      && |ext| >= 2 && AllAlnum(ext[1..])
    ensures Classify(UploadObjectName(now, originalname, sanitize)).ObjectCandidate?
  {
    var orig := OriginalName(originalname);
    var ext := UploadExtension(orig);
    var base := SafeName(sanitize, Basename(orig, ext));
    NineDigitTimestamp(now);
    UploadObjectNameLayout(now, originalname, sanitize);
    assert ext == "." + ext[1..];
    ConcatAssoc(Decimal(now) + "-" + base, ".", ext[1..]);
    ComposedNameAccepted(Decimal(now), base, ext[1..]);
  }

  /**
   * Not every upload is reachable: with no original name, and a `sanitize`
   * that leaves `file` alone, the object is stored as `<ts>-file`, which has
   * no extension and so never matches the proxy grammar.
   */
  lemma DefaultNameNotServable(now: nat, originalname: Option<string>, sanitize: string -> string)
    requires originalname.None? || originalname.value == []
    requires sanitize("file") == "file"
    ensures UploadObjectName(now, originalname, sanitize) == Decimal(now) + "-file"
    ensures !Classify(UploadObjectName(now, originalname, sanitize)).ObjectCandidate?
  {
    DefaultName(now, originalname, sanitize);
    var name := Decimal(now) + "-file";
    assert !RegexAccepts(name) by {
      TimestampFileDotless(Decimal(now));
      DotlessNeverAccepted(name);
    }
  }

  lemma DefaultName(now: nat, originalname: Option<string>, sanitize: string -> string)
    requires originalname.None? || originalname.value == []
    requires sanitize("file") == "file"
    ensures UploadObjectName(now, originalname, sanitize) == Decimal(now) + "-file"
  {
    MissingOriginalNameDefaultsToFile(now, originalname, sanitize);
    FileStaysFile(sanitize);
    DashFile(Decimal(now));
  }

  lemma FileStaysFile(sanitize: string -> string)
    requires sanitize("file") == "file"
    ensures SafeName(sanitize, "file") == "file"
  {
    FileIsWhitespaceFree();
    CollapseKeepsWhitespaceFree("file");
  }

  lemma DashFile(d: string)
    ensures d + "-" + "file" == d + "-file"
  {
    ConcatAssoc(d, "-", "file");
    assert "-" + "file" == "-file";
  }

  lemma FileIsWhitespaceFree()
    ensures NoWhitespace("file")
  {
    var f := "file";
    forall i | 0 <= i < |f| ensures !IsJsWhitespace(f[i]) { assert f[i] in {'f', 'i', 'l', 'e'}; }
  }

  lemma TimestampFileDotless(d: string)
    requires AllDigits(d)
    ensures '.' !in d + "-file"
  {
    var name := d + "-file";
    forall i | 0 <= i < |name| ensures name[i] != '.' {
      if i < |d| { assert name[i] == d[i]; }
      else { assert name[i] == "-file"[i - |d|]; }
    }
  }
}
