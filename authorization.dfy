/** The decision taken on the current-key response after the OAuth token exchange. */
module Authorization {
  import opened Wrappers

  /** The truthiness of `access.user.library` and `access.user.write`. */
  datatype UserAccess = UserAccess(library: bool, write: bool)

  /** `access` of the parsed current-key response: `user` is None when falsy. */
  datatype KeyAccess = KeyAccess(user: Option<UserAccess>)

  datatype Verdict = Unverified | Inadequate | Adequate

  const KeyNotVerified := "API key could not be verified"
  const InadequatePermissions :=
    "The key you have generated does not have adequate permissions to save items to your Zotero library. "
    + "Please try again without modifying your key's permissions."

  /**
   * The key-permission decision. `access` is None when the response did not parse, parsed to
   * something without a truthy `access`, or was not an object.
   */
  function KeyVerdict(access: Option<KeyAccess>): (v: Verdict)
    ensures v == Unverified <==> access.None? || access.value.user.None?
    ensures v == Adequate <==> (access.Some? && access.value.user.Some?
      && access.value.user.value.library && access.value.user.value.write)
    ensures v == Inadequate <==> (access.Some? && access.value.user.Some?
      && !(access.value.user.value.library && access.value.user.value.write))
  {
    if access.None? || access.value.user.None? then Unverified
    else if !access.value.user.value.library || !access.value.user.value.write then Inadequate
    else Adequate
  }
}
