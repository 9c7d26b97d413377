# Zaynix gateway: a Dafny model of its decision logic

Zaynix is a small Express server (`server.js`) that uploads files to a
Supabase Storage bucket and serves them back from clean root URLs such as
`/1630319889123-file.mp4`. This project models the logic of that server as
pure Dafny functions and proves properties of it:

- the object name the upload route generates:
  - `safeName`, which is `sanitize` followed by collapsing whitespace runs;
  - Node's POSIX `path.extname` and `path.basename(p, ext)`;
  - ASCII lower-casing;
  - the decimal timestamp;
- the proxy route:
  - the reserved-segment check;
  - the object-name regular expression, given both as an existential over splits and as a direct test, with the two proved equal;
  - the upstream address;
  - the 404 and streamed-reply decision with its fixed header set;
- the delete route: where the token comes from, then the 403 / 400 / 500 / `{ok: true}` order;
- the upload route: its 400 / 500 / 200 outcomes, the one `upload` call it makes, and the public URL it returns.

Collaborators are parameters of the handlers, and nothing is assumed about them:

| Collaborator | Modelled as |
|---|---|
| `sanitize-filename`, `encodeURIComponent` | `string -> string` |
| `Date.now()` | `now: nat` |
| `fetch` | `string -> Upstream` |
| a storage call | a `StoreResult` value |

Each handler returns the reply together with the call it made (`fetched`, `stored`, `removed`), so "no fetch" and "no store call" can be stated.

Modules:

| Module | Contents |
|---|---|
| `JsText` | JavaScript string behaviour |
| `NodePath` | `extname` and `basename` |
| `Naming` | `safeName` and the object name |
| `ObjectName` | the proxy grammar |
| `Config` | environment defaults |
| `Store` | storage results and body fields |
| `Proxy`, `Delete`, `Upload` | the three routes |

Behaviour of the code worth knowing, each stated by a lemma:

- **Case of the extension.** `path.basename(orig, ext)` compares case-sensitively with the already lower-cased extension, so `My File.MP4` is stored as `<ts>-My_File.MP4.mp4`, not `<ts>-My_File.mp4`. The extension is removed from the base only when the client wrote it in lower case (`Naming.ExtensionStrippedIffLowercase`, `Naming.UppercaseExtensionExample`).
- **Generated names and the proxy grammar.** Not every generated name matches the proxy grammar. `Upload.UploadedNameServable` gives a sufficient condition. `Upload.DefaultNameNotServable` shows an upload whose name (`<ts>-file`) the proxy never serves.
- **Where the extension starts.** `path.extname` is not simply the text after the last `.`: it returns nothing when that `.` is the first character of the name (`.bashrc`) and for `..` (`NodePath.Extname`).
- **Which bucket the proxy reads.** The proxy address reads `SUPABASE_BUCKET` directly (server.js:125), not the defaulted `BUCKET` (server.js:17). When the variable is unset, the address names a bucket called `undefined`. When it is empty, the bucket segment is empty. Uploads go to `zaynix-files` in both cases (`Proxy.ProxyBucketMatchesUploadBucketIff`).

## Model

| member | source | states |
|---|---|---|
| JsText.Interpolate | server.js:56 | `${v}` in a template literal: a string is inserted as it is; an unset value becomes the text `undefined` (also used at server.js:125) |
| JsText.OrElse | server.js:40 | JavaScript or-default: a non-empty string is kept; an unset or empty value gives the fallback |
| JsText.IsJsWhitespace | server.js:33 | the set `\s` matches: ECMAScript WhiteSpace (tab, vertical tab, form feed, space, no-break space, byte order mark, every space separator) and LineTerminator; none of them is a letter, digit, `.`, `_`, `-` or `/` |
| JsText.Lower | server.js:41 | lower-casing keeps the length and maps every character through the ASCII lower-case mapping |
| JsText.LowerKeepsDots | server.js:41 | lower-casing neither adds nor removes a `.` |
| JsText.Decimal | server.js:42 | the timestamp renders as a non-empty string of digits without a leading zero (unless it is 0) |
| JsText.DecimalRoundTrip | server.js:42 | reading back the rendered digits gives the timestamp again |
| JsText.DecimalLengthBound | server.js:42 | for k ≥ 1, the rendering has more than k digits exactly when the value is at least 10^k |
| JsText.NineDigitTimestamp | server.js:42 | a timestamp renders to nine or more digits exactly when it is at least 10^8 |
| NodePath.LastIndexOf | server.js:41 | finds the last occurrence of a character: absent exactly when the character does not occur, otherwise no occurrence follows it |
| NodePath.Extname | server.js:41 | `path.extname`: empty exactly when the last component is empty, has no `.` after its first character, or is `..`; otherwise a `.` with no further `.`, strictly shorter than the component and ending it |
| NodePath.Basename | server.js:42 | `path.basename(p, ext)`: for a suffix shorter than the last component, the suffix is removed when the component ends with it, else the component is returned whole (longer suffixes follow Node's degenerate cases and are not stated) |
| Naming.CollapseWhitespace | server.js:33 | `replace(/\s+/g, '_')` leaves no whitespace and never lengthens the text |
| Naming.SafeName | server.js:32-34 | `safeName` output holds no whitespace and is no longer than the sanitised name |
| Naming.CollapseKeepsWhitespaceFree | server.js:33 | text without whitespace passes through unchanged |
| Naming.CollapseIdempotent | server.js:32-34 | collapsing twice gives the same result as once |
| Naming.CollapseConcat | server.js:33 | text not ending in whitespace is rewritten independently of what follows it |
| Naming.MaximalRunBecomesOneUnderscore | server.js:33 | each maximal whitespace run, of any length, becomes exactly one `_`, and both sides are rewritten on their own |
| Naming.SingleSpaceBecomesUnderscore | server.js:33 | two whitespace-free words joined by a space come out joined by `_` |
| Naming.OriginalName | server.js:40 | the or-default to `file`: never empty; the given name when non-empty, else `file` |
| Naming.UploadExtension | server.js:41 | the lower-cased extension is empty or one `.` followed by non-dot characters, has no upper-case letters, and is `path.extname` lower-cased |
| Naming.UploadObjectName | server.js:42 | the name starts with the decimal rendering of the timestamp, then `-`, and ends with the lower-cased extension |
| Naming.UploadObjectNameLayout | server.js:40-42 | the name is timestamp + `-` + safe base + extension; the base holds no whitespace; the extension is empty or one `.` and non-dots |
| Naming.MissingOriginalNameDefaultsToFile | server.js:40-42 | a missing or empty original name gives an empty extension and the name `<ts>-safeName('file')` |
| Naming.ExtensionStrippedOnlyWhenLowercase | server.js:41-42 | the base keeps the whole last component unless the extension is already lower case, in which case base + extension is the component |
| Naming.ExtensionStrippedIffLowercase | server.js:41-42 | the extension is cut off the base exactly when it was written in lower case |
| Naming.PlainNameUpload | server.js:40-42 | for `stem.x`, the name is `<ts>-safeName(stem).x'` when x is lower case and `<ts>-safeName(stem.x).x'` otherwise, where x' is x lower-cased |
| Naming.UppercaseExtensionExample | server.js:40-42 | `My File.MP4` is stored as `<ts>-My_File.MP4.mp4` when sanitize leaves it alone |
| ObjectName.RegexAccepts | server.js:122 | the regular expression as a split: some i, j give at least nine digits before i, name-class characters from i to j, `.` at j, and one or more letters or digits to the end; an accepted segment has at least 11 characters and does not end in `.` |
| ObjectName.IsObjectName | server.js:122 | an accepted segment is at least 11 characters, starts with nine digits, holds only name characters, and has a `.` followed by letters or digits to the end |
| ObjectName.IsObjectNameMatchesRegex | server.js:122 | the direct test accepts exactly the strings the regular expression matches |
| ObjectName.AcceptedShape | server.js:122 | every matched segment has nine leading digits, only name characters, a `.`, no `/`, and ends in a letter or digit |
| ObjectName.SlashNeverAccepted | server.js:122 | a segment holding `/` never matches |
| ObjectName.DotlessNeverAccepted | server.js:122 | a segment without `.` never matches |
| ObjectName.ShortDigitPrefixNeverAccepted | server.js:122 | a non-digit among the first nine characters rules a match out |
| ObjectName.PlainTextNameRejected | server.js:122 | `abc.txt` does not match |
| ObjectName.ComposedNameAccepted | server.js:122 | digits (at least nine) + `-` + name characters + `.` + letters or digits always matches |
| Config.Bucket | server.js:17 | `BUCKET` is the configured bucket when set and non-empty, otherwise `zaynix-files` |
| Config.DeleteSecret | server.js:19 | `DELETE_TOKEN` is the configured secret when set and non-empty, otherwise `changeme_delete_token` |
| Proxy.ReservedNeverAccepted | server.js:118-122 | none of the six reserved segments matches the grammar |
| Proxy.Classify | server.js:116-122 | reserved exactly for the six segments; a candidate exactly when the grammar matches, carrying the segment itself |
| Proxy.StripTrailingSlash | server.js:125 | `replace(/\/$/, '')` removes one final `/` and otherwise changes nothing |
| Proxy.UpstreamAddress | server.js:125 | the address is the stripped base, `/storage/v1/object/public/`, the raw bucket variable (`undefined` when unset), `/`, then the encoded name |
| Proxy.TrailingSlashIgnored | server.js:125 | a base URL with or without one trailing `/` gives the same address |
| Proxy.ProxyBucketMatchesUploadBucketIff | server.js:125 | the proxied bucket equals the upload bucket exactly when `SUPABASE_BUCKET` is set and non-empty; unset gives `undefined` against `zaynix-files` |
| Proxy.StreamHeaders | server.js:132-135 | exactly three headers: the upstream content type (or `application/octet-stream` when absent or empty), `public, max-age=31536000, immutable`, and `nosniff` |
| Proxy.HandleProxy | server.js:114-142 | a fetch happens exactly when the grammar matches and `SUPABASE_URL` is set, at the upstream address; otherwise fall through; `next(err)` exactly for an unset URL or a rejected fetch; 404 `Not found` exactly for a not-ok response; a stream with the fixed headers exactly for an ok one |
| Proxy.FallThroughIgnoresEnvAndUpstream | server.js:118-122 | a non-candidate segment falls through with no fetch, whatever the environment, encoder and upstream |
| Proxy.FetchedOnlyObjectNames | server.js:118-128 | a fetched segment is not reserved, is not `abc.txt`, holds no `/`, and has the grammar's shape |
| Store.Truthy | server.js:76 | `!filename` holds exactly for a missing field, the empty string and the other falsy JSON values (`false`, `0`, `null`) |
| Delete.EffectiveToken | server.js:72 | a non-empty `x-delete-token` header wins; otherwise the body's `token` is used |
| Delete.Authorized | server.js:73 | `token !== DELETE_TOKEN` is false only for the secret as a string; access therefore needs the secret in the header or in the body |
| Delete.AuthorizedIff | server.js:72-73 | access is granted exactly when the winning source holds the secret as a string |
| Delete.DeleteStatus | server.js:73-84 | 403 exactly for Forbidden, 400 exactly for a missing filename, 200 exactly for success, 500 for the store failure and the internal error |
| Delete.HandleDelete | server.js:70-86 | 403 without the secret; 400 for a falsy filename; otherwise one `remove([filename])` on `BUCKET`, then `{ok: true}`, 500 `Delete failed` with the error's message, or 500 `Internal server error` |
| Delete.ForbiddenIgnoresFilename | server.js:73-76 | without the secret the outcome is 403 and does not depend on the filename or the store |
| Delete.SuccessNeedsSecretAndName | server.js:72-81 | `{ok: true}` requires the secret, a truthy filename and a successful removal |
| Delete.DefaultSecretWhenUnset | server.js:19 | with `DELETE_TOKEN` unset or empty, the default secret in the header is accepted |
| Upload.UploadDetailOf | server.js:52 | the detail is the error's message when it is a non-empty string, else the whole error object |
| Upload.UploadStatus | server.js:39-65 | status 400 exactly for a missing file, 200 exactly for success, 500 otherwise |
| Upload.PublicUrl | server.js:56 | the URL is `protocol://host/` (host `undefined` when missing) followed by the encoded name |
| Upload.HandleUpload | server.js:37-66 | no file: 400 and no store call; otherwise exactly one `upload` to `BUCKET` of the file's bytes under the generated name with cache `3600`, no upsert and the file's MIME type; 200 with that name, its public URL, and the file's size and MIME type exactly when the store succeeds; `Upload failed` with detail on a store error; `Internal server error` on a rejection |
| Upload.UploadCallOptions | server.js:44-48 | every store call carries the uploaded file's bytes unchanged, asks the store not to overwrite (upsert off), sets cache control `3600` and names a non-empty bucket |
| Upload.UploadedNameServable | server.js:42 | with a timestamp of at least 10^8, a base of name characters and an alphanumeric extension, the proxy classifies the stored name as an object to fetch |
| Upload.DefaultNameNotServable | server.js:40-42 | with no original name (and `sanitize` leaving `file` alone), the stored name is `<ts>-file` and the proxy never fetches it |

## Left out

- JsText.Lower: only the ASCII letters A-Z are lower-cased. `toLowerCase` also maps other Unicode upper-case letters, and a few of them change length.
- JsText.Decimal: the decimal rendering is exact only for timestamps below 10^21. At 10^21 and above, JavaScript switches to exponent notation, which is not modelled.
- NodePath.Extname and NodePath.Basename follow the POSIX implementation of Node's `path` module. The module's source is not part of this model, and the Windows flavour is left out.
- Supabase client construction (utils/supabase.js) is not part of this model.
- The `upload` and `remove` calls are recorded with their arguments (`PutCall`, `RemoveCall`); their outcome is a `StoreResult`. What the store does with them is left out. The listing call is left out.
- The `fetch` call is modelled only by its result (`Upstream`).
- Piping the upstream body to the client (server.js:138) is left out. The model stops at the headers of a streamed reply.
- multer's in-memory storage and `MAX_FILE_SIZE` limit (server.js:18, 29) are left out. An oversized upload is rejected inside multer before the handler runs, so the handler is modelled from the file it receives.
- `sanitize-filename`, `encodeURIComponent` and `Date.now` are parameters. Nothing about their results is assumed.
- Upload.UploadedNameServable: it needs the base name to contain only grammar characters, because `sanitize` may keep others (`(`, `,`, accented letters).
- `encodeURIComponent` throws on lone surrogate code units. Dafny strings cannot hold them, so that throw is not modelled.
- The proxy classifies the path segment after Express has decoded it. Express's decoding and routing are left out; the segment is an input.
- Errors thrown inside the handlers are modelled only where they can arise from the modelled inputs:
  - a rejected storage call (`StoreThrew`);
  - a rejected fetch (`Unreachable`);
  - an unset `SUPABASE_URL`.
  Other throws reaching the `catch` blocks (server.js:63-65, 82-85, 139-142) are left out.
- Upload.UploadDetailOf: when the error has no message, the reply carries the whole error object. The model does not capture how that object is serialised (`WholeError`).
- Delete.HandleDelete: the request body is modelled as already parsed into `token` and `filename` fields. Header folding of repeated `x-delete-token` headers is left out.
- Left out because they are user interface, framework set-up or logging:
  - the `/files` listing page (server.js:89-111);
  - static files and the root page (server.js:26, 146-148);
  - the middleware stack (server.js:21-25);
  - `app.listen` and `PORT` (server.js:16, 150-152);
  - all console logging.
