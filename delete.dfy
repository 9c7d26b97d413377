/**
 * The `POST /api/delete` route (server.js:70-86): the caller must present the
 * delete secret, then name a file, before the store is asked to remove it.
 */
module Delete {
  import opened JsText
  import opened Config
  import opened Store

  /**
   * `req.headers['x-delete-token'] || req.body.token` (server.js:72): a
   * non-empty header wins, otherwise the body field is used as it is.
   */
  function EffectiveToken(header: Option<string>, bodyToken: Field): (t: Field)
    ensures header.Some? && header.value != [] ==> t == Str(header.value)
    ensures header.None? || header.value == [] ==> t == bodyToken
  {
    if header.Some? && header.value != [] then Str(header.value) else bodyToken
  }

  /** The strict comparison `token !== DELETE_TOKEN` (server.js:73) fails only for the exact string. */
  predicate Authorized(env: Env, header: Option<string>, bodyToken: Field)
    ensures Authorized(env, header, bodyToken) ==>
      (header.Some? && header.value == DeleteSecret(env)) || bodyToken == Str(DeleteSecret(env))
  {
    EffectiveToken(header, bodyToken) == Str(DeleteSecret(env))
  }

  /** The secret may come from either place, the header taking precedence when it is non-empty. */
  lemma AuthorizedIff(env: Env, header: Option<string>, bodyToken: Field)
    ensures Authorized(env, header, bodyToken) <==>
      if header.Some? && header.value != [] then header.value == DeleteSecret(env)
      else bodyToken == Str(DeleteSecret(env))
  {
  }

  datatype DeleteReply =
    | Forbidden                         // 403 { error: 'Forbidden' }
    | FilenameRequired                  // 400 { error: 'filename required' }
    | DeleteFailed(detail: Option<string>)  // 500 { error: 'Delete failed', detail }
    | Deleted                           // 200 { ok: true }
    | InternalError                     // 500 { error: 'Internal server error' }

  function DeleteStatus(r: DeleteReply): (status: nat)
    ensures status in {200, 400, 403, 500}
    ensures status == 200 <==> r.Deleted?
    ensures status == 403 <==> r.Forbidden?
    ensures status == 400 <==> r.FilenameRequired?
  {
    match r
    case Forbidden => 403
    case FilenameRequired => 400
    case DeleteFailed(_) => 500
    case Deleted => 200
    case InternalError => 500
  }

  /** The `remove` call made: the bucket and the one-element list of names. */
  datatype RemoveCall = RemoveCall(bucket: string, names: seq<Field>)

  datatype DeleteOutcome = DeleteOutcome(removed: Option<RemoveCall>, reply: DeleteReply)

  /**
   * The route handler: 403 before the body's `filename` is looked at, 400 for
   * a falsy `filename`, then one `remove` call whose result decides between
   * 500 and `{ ok: true }`; a rejected call falls into the `catch`.
   */
  function HandleDelete(env: Env, header: Option<string>, bodyToken: Field, filename: Field, store: StoreResult)
    : (o: DeleteOutcome)
    ensures !Authorized(env, header, bodyToken) ==> o == DeleteOutcome(None, Forbidden)
    ensures Authorized(env, header, bodyToken) && !Truthy(filename) ==> o == DeleteOutcome(None, FilenameRequired)
    ensures o.removed.Some? <==> Authorized(env, header, bodyToken) && Truthy(filename)
    ensures o.removed.Some? ==> o.removed.value == RemoveCall(Bucket(env), [filename])
    ensures o.removed.Some? ==> match store
      case StoreOk => o.reply == Deleted
      case StoreError(message) => o.reply == DeleteFailed(message)
      case StoreThrew => o.reply == InternalError
  {
    if !Authorized(env, header, bodyToken) then DeleteOutcome(None, Forbidden)
    else if !Truthy(filename) then DeleteOutcome(None, FilenameRequired)
    else
      var call := RemoveCall(Bucket(env), [filename]);
      match store
      case StoreOk => DeleteOutcome(Some(call), Deleted)
      case StoreError(message) => DeleteOutcome(Some(call), DeleteFailed(message))
      case StoreThrew => DeleteOutcome(Some(call), InternalError)
  }

  /** A caller without the secret learns nothing about the file: the reply does not depend on `filename` or the store. */
  lemma ForbiddenIgnoresFilename(
    env: Env, header: Option<string>, bodyToken: Field,
    filename1: Field, filename2: Field, store1: StoreResult, store2: StoreResult)
    requires !Authorized(env, header, bodyToken)
    ensures HandleDelete(env, header, bodyToken, filename1, store1)
         == HandleDelete(env, header, bodyToken, filename2, store2)
    ensures DeleteStatus(HandleDelete(env, header, bodyToken, filename1, store1).reply) == 403
  {
  }

  /** The store is asked to remove something only when the request is authorised and names a file. */
  lemma SuccessNeedsSecretAndName(env: Env, header: Option<string>, bodyToken: Field, filename: Field, store: StoreResult)
    requires HandleDelete(env, header, bodyToken, filename, store).reply == Deleted
    ensures Authorized(env, header, bodyToken) && Truthy(filename) && store == StoreOk
  {
  }

  /** With `DELETE_TOKEN` unset or empty, the well-known default secret is accepted. */
  lemma DefaultSecretWhenUnset(env: Env)
    requires env.deleteToken.None? || env.deleteToken.value == []
    ensures Authorized(env, Some(DefaultDeleteToken), Missing)
  {
  }
}
