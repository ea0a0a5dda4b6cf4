/**
 * The module state of Zotero.API and the operations that change it: the OAuth 1.0a handshake
 * (section 2 of RFC 5849: temporary credentials, resource-owner authorization, token credentials)
 * guarded by a single pending slot, and the credential operations over the preference store.
 *
 * Promises are kept in a table: `promises[id]` is how the promise with that id has settled,
 * `slot` is `this._deferred` (None for null).
 */
module ZoteroApi {
  import opened Wrappers
  import opened Transport
  import opened FormCodec
  import opened Credentials
  import opened Authorization

  datatype Settlement = Pending | Resolved(user: AuthorizedUser) | Rejected(reason: string)

  /** The platform: which tab-closing call exists and the browser name the grant URL ends with. */
  datatype Host = Host(isBrowserExt: bool, isSafari: bool, clientName: string)

  const InvalidResponse := "An invalid response was received from the Zotero server"
  const AuthorizationCancelled := "Authorization cancelled."
  const NoOutstandingRequest := "onAuthenticationComplete called with no outstanding OAuth request"
  /** The TypeError of calling reject or resolve on a deferred that is null. */
  const NullDeferred := "TypeError: deferred is null"
  /** The URIError decodeURIComponent throws on a malformed escape. */
  const MalformedUri := "URIError: malformed URI sequence"
  /** The scope (library read, notes none, write) and client name appended to the signed grant URL. */
  const GrantParameters := "&library_access=1&notes_access=0&write_access=1&name=Zotero Connector for "

  const RequestTokenPost := Request(Post, RequestToken, None, None, false, Text(""))
  const AccessTokenPost := Request(Post, AccessToken, None, None, false, Text(""))

  /** The current-key request made with the user id and secret of the access-token response. */
  function KeyCheck(data: map<string, string>): (r: Request)
    ensures r.verb == Get && r.body == NoBody
    ensures r.apiKey.Some? <==> "oauth_token_secret" in data
    ensures r.apiKey.Some? ==> r.apiKey.value == data["oauth_token_secret"]
    ensures r.target == CurrentKey(if "userID" in data then data["userID"] else "undefined")
  {
    Request(Get, CurrentKey(JsString(Property(data, "userID"))), Property(data, "oauth_token_secret"), None, false, NoBody)
  }

  /** The form in a reply, if the request succeeded and the body decodes. */
  function ReplyForm(reply: Reply): (r: Option<map<string, string>>)
    ensures r.Some? <==> Succeeded(reply) && DecodeForm(reply.text).Some?
  {
    if Succeeded(reply) then DecodeForm(reply.text) else None
  }

  function TabClosing(host: Host, tab: nat): seq<Effect> {
    if host.isBrowserExt || host.isSafari then [CloseTab(tab)] else []
  }

  /** The table after settling promise `id`: a promise settles once, later calls change nothing. */
  function Settled(promises: seq<Settlement>, id: nat, outcome: Settlement): seq<Settlement>
    requires id < |promises|
  {
    if promises[id] == Pending then promises[id := outcome] else promises
  }

  /** How the continuation of onAuthorizationComplete ends: the detached promise settles, or an Error escapes and it never does. */
  datatype Completion = Settles(outcome: Settlement) | Throws(error: Error)

  /**
   * The continuation of onAuthorizationComplete after the access-token request. A failed exchange
   * rejects; a body that does not decode or a failed current-key request throws and leaves the
   * promise unsettled; then a key that could not be verified is told apart from one whose
   * permissions are inadequate, and only a key with library and write access resolves.
   */
  function CompletionOf(accessReply: Reply, keyReply: Reply, access: Option<KeyAccess>): (c: Completion)
    ensures !Succeeded(accessReply) ==> c == Settles(Rejected(InvalidResponse))
    ensures c.Throws? <==> Succeeded(accessReply) && (ReplyForm(accessReply).None? || !Succeeded(keyReply))
    ensures c.Settles? && c.outcome.Resolved? <==>
      ReplyForm(accessReply).Some? && Succeeded(keyReply) && KeyVerdict(access) == Adequate
    ensures c.Settles? && c.outcome.Resolved? ==> c.outcome.user == AuthorizedUser(
      Property(ReplyForm(accessReply).value, "username"), Property(ReplyForm(accessReply).value, "userID"))
    ensures ReplyForm(accessReply).Some? && Succeeded(keyReply) && KeyVerdict(access) == Unverified ==>
      c == Settles(Rejected(KeyNotVerified))
    ensures ReplyForm(accessReply).Some? && Succeeded(keyReply) && KeyVerdict(access) == Inadequate ==>
      c == Settles(Rejected(InadequatePermissions))
  {
    if !Succeeded(accessReply) then Settles(Rejected(InvalidResponse))
    else match DecodeForm(accessReply.text)
      case None => Throws(Error(MalformedUri))
      case Some(data) =>
        if !Succeeded(keyReply) then Throws(Failure(keyReply))
        else match KeyVerdict(access)
          case Unverified => Settles(Rejected(KeyNotVerified))
          case Inadequate => Settles(Rejected(InadequatePermissions))
          case Adequate => Settles(Resolved(AuthorizedUser(Property(data, "username"), Property(data, "userID"))))
  }

  /** The preferences written by a successful completion. */
  function GrantedBy(prefs: map<string, string>, data: map<string, string>): map<string, string> {
    Granted(prefs, Property(data, "oauth_token"), Property(data, "oauth_token_secret"),
            Property(data, "userID"), Property(data, "username"))
  }

  class Api {
    var promises: seq<Settlement>
    var slot: Option<nat>
    var tokenSecret: Option<string>
    var authWindow: Option<nat>
    var prefs: map<string, string>

    /** The slot only ever holds a promise that has not settled yet. */
    ghost predicate Valid()
      reads this
    {
      slot.Some? ==> slot.value < |promises| && promises[slot.value] == Pending
    }

    constructor (stored: map<string, string>)
      ensures Valid() && promises == [] && slot == None && tokenSecret == None && authWindow == None
      ensures prefs == stored
    {
      promises := [];
      slot := None;
      tokenSecret := None;
      authWindow := None;
      prefs := stored;
    }

    /**
     * Resolves or rejects promise `id`. If it was pending, the handler attached by authorize()
     * runs and sets the slot to null, whichever promise the slot holds by then.
     */
    method Settle(id: nat, outcome: Settlement)
      requires Valid() && id < |promises| && outcome != Pending
      modifies this
      ensures Valid()
      ensures promises == Settled(old(promises), id, outcome)
      ensures slot == if old(promises[id]) == Pending then None else old(slot)
      ensures tokenSecret == old(tokenSecret) && authWindow == old(authWindow) && prefs == old(prefs)
    {
      if promises[id] == Pending {
        promises := promises[id := outcome];
        slot := None;
      }
    }

    /**
     * authorize(): while a promise is pending in the slot, bring its window to the front and hand
     * out that promise without any request. Otherwise create a promise, post for temporary
     * credentials, keep their secret and open the signed grant URL; a failure anywhere in that
     * try block rejects the promise with the invalid-response error.
     * `signedUrl` is the URL the signing library produces; `window` is what openWindow gives,
     * None when it throws.
     */
    method Authorize(host: Host, tokenReply: Reply, signedUrl: string, window: Option<nat>)
      returns (id: nat, effects: seq<Effect>)
      requires Valid()
      modifies this
      ensures Valid() && id < |promises| && prefs == old(prefs)
      ensures old(slot).Some? ==>
        id == old(slot).value && promises == old(promises) && slot == old(slot)
        && tokenSecret == old(tokenSecret) && authWindow == old(authWindow)
        && effects == (if old(authWindow).Some? then [BringToFront(old(authWindow).value)] else [])
      ensures old(slot).None? ==>
        id == |old(promises)| && |promises| == id + 1 && promises[..id] == old(promises)
        && |effects| >= 1 && effects[0] == Send(RequestTokenPost)
      ensures old(slot).None? && ReplyForm(tokenReply).None? ==>
        promises[id] == Rejected(InvalidResponse) && slot == None && effects == [Send(RequestTokenPost)]
        && tokenSecret == old(tokenSecret) && authWindow == old(authWindow)
      ensures old(slot).None? && ReplyForm(tokenReply).Some? ==>
        tokenSecret == Property(ReplyForm(tokenReply).value, "oauth_token_secret")
        && effects == [Send(RequestTokenPost), OpenWindow(signedUrl + GrantParameters + host.clientName)]
      ensures old(slot).None? && ReplyForm(tokenReply).Some? && window.None? ==>
        promises[id] == Rejected(InvalidResponse) && slot == None && authWindow == old(authWindow)
      ensures old(slot).None? && ReplyForm(tokenReply).Some? && window.Some? ==>
        promises[id] == Pending && slot == Some(id) && authWindow == window
    {
      if slot.Some? {
        id := slot.value;
        effects := if authWindow.Some? then [BringToFront(authWindow.value)] else [];
        return;
      }
      id := |promises|;
      promises := promises + [Pending];
      slot := Some(id);
      effects := [Send(RequestTokenPost)];
      if !Succeeded(tokenReply) {
        Settle(id, Rejected(InvalidResponse));
        return;
      }
      var data := DecodeFormData(tokenReply.text);
      if data.None? {
        Settle(id, Rejected(InvalidResponse));
        return;
      }
      tokenSecret := Property(data.value, "oauth_token_secret");
      effects := effects + [OpenWindow(signedUrl + GrantParameters + host.clientName)];
      if window.None? {
        Settle(id, Rejected(InvalidResponse));
        return;
      }
      authWindow := window;
    }

    /**
     * The part of onAuthorizationComplete before its first request: detach the pending promise
     * and null the slot, close the tab, require an outstanding request secret, decode the
     * returned query and forget the secret before the access-token request goes out.
     * `detached` is the promise the continuation will settle.
     */
    method OnAuthorizationComplete(host: Host, query: string, tab: nat)
      returns (detached: Option<nat>, error: Option<Error>, effects: seq<Effect>)
      requires Valid()
      modifies this
      ensures Valid() && slot == None && detached == old(slot)
      ensures promises == old(promises) && authWindow == old(authWindow) && prefs == old(prefs)
      ensures detached.Some? ==> detached.value < |promises| && promises[detached.value] == Pending
      ensures !Truthy(old(tokenSecret)) ==>
        error == Some(Error(NoOutstandingRequest)) && tokenSecret == old(tokenSecret)
        && effects == TabClosing(host, tab)
      ensures Truthy(old(tokenSecret)) && DecodeForm(query).None? ==>
        error == Some(Error(MalformedUri)) && tokenSecret == old(tokenSecret)
        && effects == TabClosing(host, tab)
      ensures Truthy(old(tokenSecret)) && DecodeForm(query).Some? ==>
        error == None && tokenSecret == None
        && effects == TabClosing(host, tab) + [Send(AccessTokenPost)]
    {
      detached := slot;
      slot := None;
      effects := TabClosing(host, tab);
      if !Truthy(tokenSecret) {
        return detached, Some(Error(NoOutstandingRequest)), effects;
      }
      var parameters := DecodeFormData(query);
      if parameters.None? {
        return detached, Some(Error(MalformedUri)), effects;
      }
      tokenSecret := None;
      effects := effects + [Send(AccessTokenPost)];
      error := None;
    }

    /** Settles the detached promise, or throws the TypeError of a null deferred. */
    method SettleDetached(pending: Option<nat>, outcome: Settlement) returns (error: Option<Error>)
      requires Valid() && outcome != Pending && (pending.Some? ==> pending.value < |promises|)
      modifies this
      ensures Valid() && tokenSecret == old(tokenSecret) && authWindow == old(authWindow) && prefs == old(prefs)
      ensures pending.None? ==> error == Some(Error(NullDeferred)) && promises == old(promises) && slot == old(slot)
      ensures pending.Some? ==> (error == None && promises == Settled(old(promises), pending.value, outcome)
        && slot == (if old(promises)[pending.value] == Pending then None else old(slot)))
    {
      if pending.None? {
        return Some(Error(NullDeferred));
      }
      Settle(pending.value, outcome);
      error := None;
    }

    /**
     * The rest of onAuthorizationComplete: the access-token reply, the current-key request made
     * with its secret, the verdict on the key's permissions, and, for an adequate key, the four
     * preferences written before the promise resolves. `access` is the `access` member of the
     * parsed current-key response.
     */
    method FinishAuthorization(pending: Option<nat>, accessReply: Reply, keyReply: Reply, access: Option<KeyAccess>)
      returns (error: Option<Error>, effects: seq<Effect>)
      requires Valid() && (pending.Some? ==> pending.value < |promises|)
      modifies this
      ensures Valid() && tokenSecret == old(tokenSecret) && authWindow == old(authWindow)
      ensures effects == if ReplyForm(accessReply).Some? then [Send(KeyCheck(ReplyForm(accessReply).value))] else []
      ensures CompletionOf(accessReply, keyReply, access).Throws? ==>
        error == Some(CompletionOf(accessReply, keyReply, access).error)
        && promises == old(promises) && slot == old(slot) && prefs == old(prefs)
      ensures CompletionOf(accessReply, keyReply, access).Settles? ==>
        var outcome := CompletionOf(accessReply, keyReply, access).outcome;
        && prefs == (if outcome.Resolved? then GrantedBy(old(prefs), ReplyForm(accessReply).value) else old(prefs))
        && (pending.None? ==> error == Some(Error(NullDeferred)) && promises == old(promises) && slot == old(slot))
        && (pending.Some? ==> (error == None && promises == Settled(old(promises), pending.value, outcome)
              && slot == (if old(promises)[pending.value] == Pending then None else old(slot))))
    {
      effects := [];
      if !Succeeded(accessReply) {
        error := SettleDetached(pending, Rejected(InvalidResponse));
        return;
      }
      var data := DecodeFormData(accessReply.text);
      if data.None? {
        return Some(Error(MalformedUri)), effects;
      }
      var fields := data.value;
      effects := [Send(KeyCheck(fields))];
      if !Succeeded(keyReply) {
        return Some(Failure(keyReply)), effects;
      }
      match KeyVerdict(access)
      case Unverified =>
        error := SettleDetached(pending, Rejected(KeyNotVerified));
      case Inadequate =>
        error := SettleDetached(pending, Rejected(InadequatePermissions));
      case Adequate =>
        StoreGrant(fields);
        error := SettleDetached(pending, Resolved(AuthorizedUser(Property(fields, "username"), Property(fields, "userID"))));
    }

    /** The four preference writes after a verified key, from the access-token response. */
    method StoreGrant(data: map<string, string>)
      modifies this
      ensures prefs == GrantedBy(old(prefs), data)
      ensures promises == old(promises) && slot == old(slot) && tokenSecret == old(tokenSecret)
      ensures authWindow == old(authWindow)
    {
      prefs := Store(prefs, TokenKey, Property(data, "oauth_token"));
      prefs := Store(prefs, SecretKey, Property(data, "oauth_token_secret"));
      prefs := Store(prefs, UserIDKey, Property(data, "userID"));
      prefs := Store(prefs, UsernameKey, Property(data, "username"));
    }

    /** onAuthorizationCancel: reject the pending promise, if there is one; otherwise do nothing. */
    method OnAuthorizationCancel()
      requires Valid()
      modifies this
      ensures Valid() && slot == None
      ensures tokenSecret == old(tokenSecret) && authWindow == old(authWindow) && prefs == old(prefs)
      ensures old(slot).None? ==> promises == old(promises)
      ensures old(slot).Some? ==> promises == old(promises)[old(slot).value := Rejected(AuthorizationCancelled)]
    {
      if slot.Some? {
        Settle(slot.value, Rejected(AuthorizationCancelled));
      }
    }

    /** clearCredentials: remove the four credential preferences. */
    method ClearCredentials()
      modifies this
      ensures prefs == Cleared(old(prefs))
      ensures promises == old(promises) && slot == old(slot) && tokenSecret == old(tokenSecret)
      ensures authWindow == old(authWindow)
    {
      prefs := prefs - CredentialKeys;
    }

    /** setCredentials: refuse an empty key or user id without writing anything; otherwise store them. */
    method SetCredentials(apiKey: Option<string>, userID: Option<string>, username: Option<string>)
      returns (r: Result<AuthorizedUser>)
      modifies this
      ensures !CredentialsGiven(apiKey, userID) ==> r == Err(CredentialsRequired) && prefs == old(prefs)
      ensures CredentialsGiven(apiKey, userID) ==>
        r == Ok(AuthorizedUser(username, userID))
        && prefs == WithCredentials(old(prefs), apiKey.value, userID.value, username)
      ensures promises == old(promises) && slot == old(slot) && tokenSecret == old(tokenSecret)
      ensures authWindow == old(authWindow)
    {
      if !Truthy(apiKey) || !Truthy(userID) {
        return Err(CredentialsRequired);
      }
      prefs := prefs[SecretKey := apiKey.value];
      prefs := prefs[UserIDKey := userID.value];
      if Truthy(username) {
        prefs := prefs[UsernameKey := username.value];
      }
      r := Ok(AuthorizedUser(username, userID));
    }

    /** initPreconfiguredAuth: store the configured credentials when the block asks for it; never throws. */
    method InitPreconfiguredAuth(config: Option<Preconfigured>) returns (ok: bool)
      modifies this
      ensures ok == PreconfiguredReady(config)
      ensures ok ==> prefs == WithCredentials(old(prefs), config.value.apiKey.value, config.value.userID.value,
                                             config.value.username)
      ensures !ok ==> prefs == old(prefs)
      ensures promises == old(promises) && slot == old(slot) && tokenSecret == old(tokenSecret)
      ensures authWindow == old(authWindow)
    {
      if config.Some? && config.value.enabled {
        var block := config.value;
        if Truthy(block.apiKey) && Truthy(block.userID) {
          var r := SetCredentials(block.apiKey, block.userID, block.username);
          return r.Ok?;
        }
      }
      return false;
    }

    /** getUserInfo: the stored secret, user id and username, or None when the read fails. */
    method GetUserInfo(readFails: bool) returns (info: Option<UserInfo>)
      ensures readFails ==> info == None
      ensures !readFails ==> info == StoredUserInfo(prefs)
    {
      if readFails {
        return None;
      }
      info := StoredUserInfo(prefs);
    }
  }

  // ----- sequences of calls -----

  /**
   * The tab closed by onAuthorizationComplete reports a cancel; by then the slot is null, so the
   * cancel rejects nothing and the detached promise stays pending for the continuation.
   */
  method CancelAfterCompletion(api: Api, host: Host, query: string, tab: nat) returns (detached: Option<nat>)
    requires api.Valid()
    modifies api
    ensures api.Valid() && api.slot == None && detached == old(api.slot)
    ensures api.promises == old(api.promises)
    ensures detached.Some? ==> api.promises[detached.value] == Pending
  {
    var error, effects;
    detached, error, effects := api.OnAuthorizationComplete(host, query, tab);
    api.OnAuthorizationCancel();
  }

  /** Once a completion has taken the request secret, a second completion throws. */
  method CompleteTwice(api: Api, host: Host, query: string, tab: nat) returns (first: Option<Error>, second: Option<Error>)
    requires api.Valid()
    modifies api
    ensures first.None? ==> second == Some(Error(NoOutstandingRequest))
  {
    var detached, effects;
    detached, first, effects := api.OnAuthorizationComplete(host, query, tab);
    detached, second, effects := api.OnAuthorizationComplete(host, query, tab);
  }

  /**
   * An exchange that settles after a newer authorize() has filled the slot empties the slot: the
   * newer promise stays pending, and a cancel from its window no longer reaches it.
   */
  method LateSettlementOrphans(api: Api, host: Host, query: string, tab: nat, tokenReply: Reply, signedUrl: string,
                               window: nat, accessReply: Reply, keyReply: Reply, access: Option<KeyAccess>)
    returns (older: Option<nat>, newer: nat)
    requires api.Valid() && api.slot.Some?
    requires Truthy(api.tokenSecret) && DecodeForm(query).Some?
    requires ReplyForm(tokenReply).Some?
    requires CompletionOf(accessReply, keyReply, access).Settles?
    modifies api
    ensures older.Some? && older.value < |api.promises| && api.promises[older.value] != Pending
    ensures newer < |api.promises| && newer != older.value
    ensures api.promises[newer] == Pending && api.slot == None
  {
    var error, effects;
    older, error, effects := api.OnAuthorizationComplete(host, query, tab);
    newer, effects := api.Authorize(host, tokenReply, signedUrl, Some(window));
    error, effects := api.FinishAuthorization(older, accessReply, keyReply, access);
    api.OnAuthorizationCancel();
  }
}
