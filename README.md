# Zotero connector API client: a Dafny model

This project models the client side of the Zotero connector's web-API module
(`Zotero.API` in `src/common/api.js`). It covers five parts:

- **The form codec.**
  - `_decodeFormData` splits a body on `&`, then each segment at its first `=`. It unescapes
    key and value with `decodeURIComponent`, reading `+` as a space in the value only.
  - The negotiate body of an attachment upload is built with `encodeURIComponent`.
  - `encodeURIComponent` / `decodeURIComponent` follow section 19.2.6 of ECMA-262 over UTF-8,
    which follows section 3 of RFC 3629. Every `URIError` becomes `None`.
- **The OAuth 1.0a handshake** (section 2 of RFC 5849), as the class `ZoteroApi.Api`.
  - Its state is the single pending slot `_deferred`, the one-shot request-token secret and
    the authorization window.
  - Promises are kept in a table of settlements. The slot holds the index of a pending
    promise, or nothing.
  - `onAuthorizationComplete` is cut at its first `await` into two methods:
    `OnAuthorizationComplete` (the synchronous part) and `FinishAuthorization` (the rest). A
    cancel can then be placed between them.
- **The credential operations** over the preference store, a `map<string, string>`:
  `clearCredentials`, `setCredentials`, `initPreconfiguredAuth` and `getUserInfo`.
- **`createItem`**: a recursive function over a script of attempts, one attempt consumed per
  call. Each attempt says what `getUserInfo`, `authorize()` or the item POST gave that time.
- **`uploadAttachment`**:
  - the validation loop over the required properties and the key check;
  - the negotiate body;
  - the `exists` short-circuit;
  - the in-place framing of the payload in a byte array between the server's prefix and suffix;
  - the registration request.

Collaborators are never called. Their answers are parameters, and the requests, windows and tab
closings the code asks for come back as a list of effects. These collaborators are:

- the HTTP transport;
- browser windows and tabs;
- the OAuth signing library;
- `JSON.parse`;
- the clock.

Behaviour of the code that the model keeps as written:

- When `askForAuth` is truthy, every 403 makes `createItem` recurse with `true`, and no counter
  bounds it. `Items.ForbiddenRetryIsUnbounded` and `Items.PersistentForbiddenNeverSurfaces`
  state this. With `false` or an omitted argument the 403 is rethrown
  (`Items.ForbiddenRetriedOnlyWhenAsked`).
- The 403 retry is a whole new `createItem(payload, true)` call. It starts no handshake of its
  own: it authorizes only if `getUserInfo` then gives null.
- The key permissions `access.user.library` and `access.user.write` are truthiness tests
  (`Authorization.KeyVerdict`).
- A failed current-key request throws outside any `try`, so the detached promise is never
  settled (`ZoteroApi.CompletionOf`, case `Throws`).
- The registration request accepts any status (`successCodes: false`) and is never retried.

## Model

| member | source | states |
|---|---|---|
| FormCodec.IndexOf | src/common/api.js:38 | the index of the first occurrence of the character, or None exactly when it does not occur |
| FormCodec.Split | src/common/api.js:34 | a split gives at least one part and no part contains the separator |
| FormCodec.Property | src/common/api.js:72 | reading a property of the decoded object gives its value, or undefined exactly when the name is absent |
| FormCodec.DecodeFormData | src/common/api.js:33-43 | the loop over the `&`-separated segments fills the object as the segment-by-segment decoding specifies, and fails on the first URIError |
| FormCodec.DecodeSegmentPlain | src/common/api.js:37-40 | a segment splits at its first `=`; with no `=` the key is "" and the whole segment is the value; `+` becomes a space in the value but not in the key |
| FormCodec.LaterDuplicateWins | src/common/api.js:36-41 | a later segment with the same key overwrites the value stored by earlier segments; the key `__proto__` is excluded, since assigning a string to it on a plain object stores nothing (`FormCodec.Assign`) |
| FormCodec.EncodeFields | src/common/api.js:315-319 | the loop pushes `key=encodeURIComponent(value)` for each field in order and joins the pushed segments with `&` |
| FormCodec.SplitJoin | src/common/api.js:319 | joining parts that contain no separator and splitting again gives the same parts |
| FormCodec.DecodeFormEncode | src/common/api.js:307-319 | decoding an encoded list of fields with plain keys gives the object those fields describe, later fields overwriting earlier ones |
| UriComponent.PercentEncode | src/common/api.js:317 | encodeURIComponent never shortens its input and leaves a string of unreserved characters unchanged |
| UriComponent.PercentDecode | src/common/api.js:39-40 | decodeURIComponent never lengthens its input, and a `%` that does not start a two-hex-digit escape is a URIError (None) |
| UriComponent.DecodeEncode | src/common/api.js:317 | decodeURIComponent inverts encodeURIComponent on every string |
| UriComponent.EncodedAlphabet | src/common/api.js:317 | encodeURIComponent produces only unreserved characters and `%`, so never `&`, `=` or `+` |
| UriComponent.DecodePlain | src/common/api.js:39-40 | a string without `%` decodes to itself |
| UriComponent.MalformedEscapeFails | src/common/api.js:39-40 | a `%` that does not start a two-hex-digit escape makes decoding fail, whatever plain text comes before it |
| Utf8.EncodeChar | src/common/api.js:355-361 | a character encodes to as many bytes as its code point needs; the first byte announces that length and the rest are continuation bytes |
| Utf8.DecodeEncodeChar | src/common/api.js:355-361 | decoding the UTF-8 bytes of a character gives the character back |
| Utf8.EncodeDecodeSequence | src/common/api.js:39-40 | every byte sequence that decodes is the encoding of the character it decodes to, so overlong and surrogate forms are refused |
| Credentials.Store | src/common/api.js:170-173 | setting a preference stores the value, or removes the key for an undefined value, and leaves every other key alone |
| Credentials.StoredUserInfo | src/common/api.js:235-240 | user info exists exactly when the secret, the user id and the username are all stored, and carries those three values |
| Credentials.Cleared | src/common/api.js:187-191 | the four credential keys are removed and every other preference is kept |
| Credentials.WithCredentials | src/common/api.js:201-205 | secret and user id are written, the username only when it is non-empty, and no other key changes, in particular not `auth-token` |
| Credentials.ClearedHasNoUserInfo | src/common/api.js:187-191 | after clearing, no user info can be read |
| Credentials.CredentialsReadBack | src/common/api.js:201-205 | with a username, what setCredentials stores is read back by getUserInfo |
| Credentials.CredentialsWithoutUsername | src/common/api.js:203-205 | without a username, getUserInfo reads the new key and user id with the old username, or nothing if no username was stored |
| Credentials.WithCredentialsKeepsToken | src/common/api.js:201-205 | setCredentials never changes `auth-token` |
| Credentials.GrantedReadBack | src/common/api.js:170-173 | the four preferences written after a verified grant are read back by getUserInfo |
| Authorization.KeyVerdict | src/common/api.js:157-168 | a missing `access` or `access.user` means not verified; otherwise a falsy `library` or `write` means inadequate; only both truthy is adequate |
| ZoteroApi.ReplyForm | src/common/api.js:69-71 | a reply yields a form exactly when the request succeeded and its body decodes |
| ZoteroApi.KeyCheck | src/common/api.js:143-149 | the current-key GET has no body, carries the access-token response's secret as its key (none when that is absent) and names its user id, "undefined" when absent |
| ZoteroApi.CompletionOf | src/common/api.js:134-175 | a failed exchange rejects with the invalid-response error; an undecodable body or a failed key request throws and settles nothing; the two key errors are told apart; only an adequate key resolves, with the username and user id of the exchange |
| ZoteroApi.Api.constructor | src/common/api.js:26-27 | the module starts with no pending promise, no secret and no window |
| ZoteroApi.Api.Settle | src/common/api.js:55-57 | a promise settles at most once, and settling a pending one nulls the slot whatever promise it holds |
| ZoteroApi.Api.Authorize | src/common/api.js:48-99 | with a pending promise, return it and bring its window to front, without requests; otherwise post for a request token, keep its secret, open the signed grant URL and leave the new promise pending in the slot; any failure rejects it with the invalid-response error |
| ZoteroApi.Api.OnAuthorizationComplete | src/common/api.js:106-135 | the slot is detached and nulled before the tab closes; with no secret outstanding the call throws; otherwise the secret is cleared before the access-token request |
| ZoteroApi.Api.SettleDetached | src/common/api.js:139 | settling a detached promise that was null throws a TypeError and changes nothing |
| ZoteroApi.Api.FinishAuthorization | src/common/api.js:134-176 | the detached promise settles as the completion decides, and the four preferences are written only when it resolves |
| ZoteroApi.Api.StoreGrant | src/common/api.js:170-173 | the token, secret, user id and username of the access-token response are written, an absent one removing its key, and no other state changes |
| ZoteroApi.Api.OnAuthorizationCancel | src/common/api.js:178-182 | a pending promise is rejected with the cancellation error; without one nothing changes |
| ZoteroApi.Api.ClearCredentials | src/common/api.js:187-191 | the store loses the four credential keys and nothing else changes |
| ZoteroApi.Api.SetCredentials | src/common/api.js:197-208 | an empty key or user id fails with nothing written; otherwise the credentials are stored and the username and user id returned |
| ZoteroApi.Api.InitPreconfiguredAuth | src/common/api.js:213-229 | true exactly when the block is enabled with a key and a user id, which are then stored; otherwise false with the store unchanged |
| ZoteroApi.Api.GetUserInfo | src/common/api.js:235-240 | the stored secret, user id and username, or None when the read fails |
| ZoteroApi.CancelAfterCompletion | src/common/api.js:106-116 | the cancel raised by closing the tab finds the slot null, so the detached promise stays pending |
| ZoteroApi.CompleteTwice | src/common/api.js:118-128 | once a completion has taken the secret, a second completion throws |
| ZoteroApi.LateSettlementOrphans | src/common/api.js:55-57 | an older promise that settles after a newer authorize() empties the slot, leaving the newer promise pending and out of reach |
| Items.CreateItem | src/common/api.js:250-284 | each POST or authorization consumes an attempt, and every POST is the item POST of the payload with the credentials getUserInfo gave in some attempt |
| Items.NotAuthorizedWithoutAsking | src/common/api.js:252-255 | with no credentials and askForAuth false, "Not authorized" with no request and no authorization |
| Items.NoAuthorizationWhenAskIsFalse | src/common/api.js:250-283 | with askForAuth false, no authorization and at most one POST |
| Items.AuthorizesOnceThenGivesUp | src/common/api.js:256-261 | with no credentials, authorize() is called once and the recursion with false never calls it again |
| Items.RefusalIsPrefixed | src/common/api.js:258-260 | a rejected authorization surfaces with the prefix "Authentication failed: " |
| Items.ForbiddenRetriedOnlyWhenAsked | src/common/api.js:277-282 | a 403 is retried only when askForAuth is true; otherwise it surfaces after one POST |
| Items.OmittedAskIsBounded | src/common/api.js:253-279 | an omitted askForAuth authorizes at most once and posts at most once |
| Items.ForbiddenRetryIsUnbounded | src/common/api.js:278-279 | n 403 replies followed by a success make n + 1 identical POSTs, for every n |
| Items.PersistentForbiddenNeverSurfaces | src/common/api.js:278-279 | when every reply is 403 the 403 never surfaces: one POST per reply, still recursing |
| Upload.FirstMissing | src/common/api.js:296-301 | None exactly when every required property is defined; otherwise the first undefined one, in order |
| Upload.MissingProperty | src/common/api.js:296-301 | the loop over data, key, md5, mimeType stops at the first falsy property |
| Upload.MissingMd5Named | src/common/api.js:296-299 | with data and key present and md5 missing, the error names md5 |
| Upload.HasInvalidCharacter | src/common/api.js:303-305 | the key is refused exactly when one of its characters is outside a-z, A-Z, 0-9 |
| Upload.Decimal | src/common/api.js:310-311 | a number prints as a non-empty string of decimal digits, without a leading zero, that denote exactly that number |
| Upload.NegotiateFields | src/common/api.js:307-314 | the negotiate keys, in insertion order, are md5, filename, filesize, mtime, contentType, then charset exactly when it is truthy |
| Upload.NegotiateBodyDecodes | src/common/api.js:307-319 | the server decodes the negotiate body to exactly md5, filename, filesize, mtime, contentType and, when truthy, charset |
| Upload.NegotiateBodyOrder | src/common/api.js:307-319 | the negotiate body splits into one segment per field, in insertion order |
| Upload.WriteAt | src/common/api.js:359-361 | the bytes are copied into the buffer from the offset on and every other byte is untouched |
| Upload.Frame | src/common/api.js:354-362 | the buffer has length p + n + s, with the prefix's bytes at [0, p), the data at [p, p + n) and the suffix's bytes at [p + n, p + n + s) |
| Upload.Deliver | src/common/api.js:354-385 | the framed bytes go to the storage URL with the server's content type; only if that succeeds is `upload=<uploadKey>` registered, and any status of the registration counts as done |
| Upload.Transfer | src/common/api.js:307-385 | the negotiate POST carries the encoded fields; a failed or unparsable answer stops there; `exists` returns the attachment after that one request; otherwise the upload is delivered |
| Upload.UploadAttachment | src/common/api.js:295-386 | validation fails before any credential read or request; with `exists` the attachment comes back after one request; otherwise the framed bytes go to the storage URL and the registration body is `upload=<uploadKey>` |

## Left out

- OAuth signing: the signing library is not part of this model. The signed grant URL is an
  opaque parameter of `ZoteroApi.Api.Authorize`, and the Authorization headers of the token
  requests are not represented.
- Transport, windows and tabs:
  - the replies of `Zotero.HTTP.request` are parameters;
  - the windows and tabs are numbers;
  - a request that resolves is taken to be one with a 2xx status.
- `JSON.parse`: the parsed response is an optional record the caller supplies. For the current
  key it is the `access` member; for the negotiate response it is the grant. A body that parses
  to `null` in the upload, which would throw a TypeError on `response.exists`, is not modelled.
- Logging and the redaction of the secret in log lines: logging is output only, and no redaction
  guarantee is stated.
- The browser name at the end of the grant URL and the upload `mtime` are inputs. `mtime` is a
  `nat`, so a clock before 1970 is not modelled.
- ZoteroApi.Api.GetUserInfo: `Zotero.Prefs` is not part of this model. Its `getAsync` is taken
  to reject, and so `getUserInfo` to give null, when any of the three keys is not stored.
- Credentials.Store: `Prefs.set` with an undefined value is taken to remove the key.
- ZoteroApi.Api.InitPreconfiguredAuth: a failing store write inside its `try` is not modelled,
  since writes to the map cannot fail. Only the refusal of `setCredentials` reaches the `catch`,
  and the guard before it rules that refusal out.
- Promise scheduling: the only interleaving modelled is the cut inside `onAuthorizationComplete`.
  Callers waiting on the same promise are the same index in the table.
- ZoteroApi.Api.Authorize returns the promise's index, not the promise. A caller learns the
  outcome from the table.
- `createItem`'s call to `authorize()` is abstracted as its outcome for this caller:
  granted, refused with a reason, or never settling. The handshake itself is modelled by
  `ZoteroApi.Api`.
- Request headers: `Transport.Request` has no field for the `Zotero-API-Version: 3` header that
  the current-key GET, the item POST and the three upload requests carry. It is a constant, and
  no behaviour of the code depends on it.
- Items.RefusalIsPrefixed: the rejection reason is abstracted as a string. In the code,
  `e.message = ...` changes the one Error object that every waiter on the same `authorize()`
  promise receives, so a second `createItem` waiting on it sees the prefix twice. The model
  leaves the reason arbitrary and does not track that the Error is shared.
- `JSON.stringify` of the item payload: the payload is taken to be the serialised text.
- Typed arrays other than bytes: the attachment data is a sequence of bytes.
- Strings are sequences of Unicode scalar values. Lone UTF-16 surrogates, on which
  `encodeURIComponent` throws, cannot occur.
