/**
 * The credentials kept in the preference store, as a map from preference name to value, and
 * the pure decisions about them.
 */
module Credentials {
  import opened Wrappers

  const TokenKey := "auth-token"
  const SecretKey := "auth-token_secret"
  const UserIDKey := "auth-userID"
  const UsernameKey := "auth-username"
  const CredentialKeys: set<string> := {TokenKey, SecretKey, UserIDKey, UsernameKey}

  const CredentialsRequired := "API key and user ID are required"

  /** The object getUserInfo hands out: the bearer secret, the user id and the username. */
  datatype UserInfo = UserInfo(secret: string, userID: string, username: string)

  /** The object setCredentials and the authorization flow resolve with. */
  datatype AuthorizedUser = AuthorizedUser(username: Option<string>, userID: Option<string>)

  /** The PRECONFIGURED_AUTH block of the configuration. */
  datatype Preconfigured = Preconfigured(
    enabled: bool,
    apiKey: Option<string>,
    userID: Option<string>,
    username: Option<string>)

  /** Prefs.set: storing an absent value leaves the preference unset. */
  function Store(prefs: map<string, string>, key: string, value: Option<string>): (r: map<string, string>)
    ensures value.Some? ==> key in r && r[key] == value.value
    ensures value.None? ==> key !in r
    ensures forall k :: k != key ==> (k in r <==> k in prefs) && (k in r ==> r[k] == prefs[k])
  {
    match value
    case Some(v) => prefs[key := v]
    case None => prefs - {key}
  }

  /**
   * The three preferences getUserInfo reads. The read is taken to fail, and getUserInfo to give
   * null, when any of them is not stored.
   */
  function StoredUserInfo(prefs: map<string, string>): (r: Option<UserInfo>)
    ensures r.Some? <==> SecretKey in prefs && UserIDKey in prefs && UsernameKey in prefs
    ensures r.Some? ==> (r.value.secret == prefs[SecretKey] && r.value.userID == prefs[UserIDKey]
      && r.value.username == prefs[UsernameKey])
  {
    if SecretKey in prefs && UserIDKey in prefs && UsernameKey in prefs then
      Some(UserInfo(prefs[SecretKey], prefs[UserIDKey], prefs[UsernameKey]))
    else None
  }

  /** clearCredentials: the four credential preferences are removed and nothing else. */
  function Cleared(prefs: map<string, string>): (r: map<string, string>)
    ensures forall k :: k in r <==> k in prefs && k !in CredentialKeys
    ensures forall k :: k in r ==> r[k] == prefs[k]
  {
    prefs - CredentialKeys
  }

  /** setCredentials accepts its input only with a non-empty API key and user id. */
  predicate CredentialsGiven(apiKey: Option<string>, userID: Option<string>) {
    Truthy(apiKey) && Truthy(userID)
  }

  /**
   * The store after setCredentials: the secret and the user id are written, the username only
   * when one is given, and "auth-token" is never touched.
   */
  function WithCredentials(prefs: map<string, string>, apiKey: string, userID: string, username: Option<string>)
    : (r: map<string, string>)
    ensures SecretKey in r && r[SecretKey] == apiKey
    ensures UserIDKey in r && r[UserIDKey] == userID
    ensures Truthy(username) ==> UsernameKey in r && r[UsernameKey] == username.value
    ensures !Truthy(username) ==> ((UsernameKey in r <==> UsernameKey in prefs)
      && (UsernameKey in r ==> r[UsernameKey] == prefs[UsernameKey]))
    ensures forall k :: k != SecretKey && k != UserIDKey && k != UsernameKey ==>
      (k in r <==> k in prefs) && (k in r ==> r[k] == prefs[k])
  {
    var r := prefs[SecretKey := apiKey][UserIDKey := userID];
    if Truthy(username) then r[UsernameKey := username.value] else r
  }

  /** initPreconfiguredAuth goes ahead only when the block exists, is enabled and has both key and user id. */
  predicate PreconfiguredReady(config: Option<Preconfigured>) {
    config.Some? && config.value.enabled && Truthy(config.value.apiKey) && Truthy(config.value.userID)
  }

  /** The four preferences written after a key has been verified, from the access-token response. */
  function Granted(prefs: map<string, string>, token: Option<string>, secret: Option<string>,
                   userID: Option<string>, username: Option<string>): map<string, string>
  {
    Store(Store(Store(Store(prefs, TokenKey, token), SecretKey, secret), UserIDKey, userID), UsernameKey, username)
  }

  // ----- properties -----

  /** After clearCredentials, getUserInfo finds no credentials. */
  lemma ClearedHasNoUserInfo(prefs: map<string, string>)
    ensures StoredUserInfo(Cleared(prefs)) == None
  {
  }

  /** With a username given, what setCredentials stores is what getUserInfo reads back. */
  lemma CredentialsReadBack(prefs: map<string, string>, apiKey: string, userID: string, username: string)
    requires username != ""
    ensures StoredUserInfo(WithCredentials(prefs, apiKey, userID, Some(username)))
      == Some(UserInfo(apiKey, userID, username))
  {
  }

  /**
   * Without a username, setCredentials leaves "auth-username" as it was: getUserInfo reads the new
   * key and user id with the old username, or nothing when no username was ever stored.
   */
  lemma CredentialsWithoutUsername(prefs: map<string, string>, apiKey: string, userID: string)
    ensures StoredUserInfo(WithCredentials(prefs, apiKey, userID, None)) ==
      if UsernameKey in prefs then Some(UserInfo(apiKey, userID, prefs[UsernameKey])) else None
  {
  }

  /** setCredentials never writes "auth-token": a token from an earlier OAuth grant survives it. */
  lemma WithCredentialsKeepsToken(prefs: map<string, string>, apiKey: string, userID: string, username: Option<string>)
    ensures var r := WithCredentials(prefs, apiKey, userID, username);
      (TokenKey in r <==> TokenKey in prefs) && (TokenKey in r ==> r[TokenKey] == prefs[TokenKey])
  {
  }

  /** A complete grant is what getUserInfo reads back. */
  lemma GrantedReadBack(prefs: map<string, string>, token: Option<string>, secret: string, userID: string, username: string)
    ensures StoredUserInfo(Granted(prefs, token, Some(secret), Some(userID), Some(username)))
      == Some(UserInfo(secret, userID, username))
  {
  }
}
