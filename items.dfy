/**
 * createItem: its recursion over what getUserInfo, authorize() and the item POST give on each
 * call, written as a script of attempts that the recursion consumes one per call.
 */
module Items {
  import opened Wrappers
  import opened Transport
  import opened Credentials

  /** The `askForAuth` argument: omitted (undefined), or a boolean. */
  datatype AskForAuth = Omitted | Ask(flag: bool)

  /** How authorize() settles for this caller. */
  datatype AuthOutcome = Granted | Refused(reason: string) | NeverSettles

  /** One call of createItem as the environment answers it. */
  datatype Attempt =
    | Unauthenticated(authorization: AuthOutcome)  // getUserInfo gave null; then authorize() settled so
    | Authenticated(info: UserInfo, reply: Reply)  // getUserInfo gave `info`; then the item POST replied so

  datatype ItemResult =
    | Created(responseText: string)
    | Failed(error: Error)
    | Hangs        // waiting on an authorize() promise that never settles
    | ScriptEnded  // still recursing when the script has no more attempts

  /** The result, the item POSTs issued in order, and how many times authorize() was called. */
  datatype Run = Run(result: ItemResult, posts: seq<Request>, authorizations: nat)

  const NotAuthorized := "Not authorized"
  const AuthenticationFailed := "Authentication failed: "

  /** The item POST: the user's items endpoint, the stored secret as key, the payload as JSON. */
  function ItemsPost(info: UserInfo, payload: string): Request {
    Request(Post, Items(info.userID), Some(info.secret), Some(JsonType), false, Text(payload))
  }

  function Status(reply: Reply): Option<int> {
    if reply.Reply? then Some(reply.status) else None
  }

  /**
   * createItem(payload, askForAuth). Every POST and every authorize() call uses up one attempt,
   * and every POST is the item POST for the credentials of some attempt of the script.
   */
  function CreateItem(payload: string, ask: AskForAuth, script: seq<Attempt>): (run: Run)
    ensures |run.posts| + run.authorizations <= |script|
    ensures forall i :: 0 <= i < |run.posts| ==> exists j :: (0 <= j < |script| && script[j].Authenticated?
      && run.posts[i] == ItemsPost(script[j].info, payload))
    decreases |script|
  {
    if script == [] then Run(ScriptEnded, [], 0)
    else match script[0]
      case Unauthenticated(authorization) =>
        if ask == Ask(false) then Run(Failed(Error(NotAuthorized)), [], 0)
        else (
          match authorization
          case Refused(reason) => Run(Failed(Error(AuthenticationFailed + reason)), [], 1)
          case NeverSettles => Run(Hangs, [], 1)
          case Granted =>
            var rest := CreateItem(payload, Ask(false), script[1..]);
            rest.(authorizations := rest.authorizations + 1))
      case Authenticated(info, reply) =>
        var post := ItemsPost(info, payload);
        if Succeeded(reply) then Run(Created(reply.text), [post], 0)
        else if ask == Ask(true) && Status(reply) == Some(403) then
          var rest := CreateItem(payload, Ask(true), script[1..]);
          rest.(posts := [post] + rest.posts)
        else Run(Failed(Failure(reply)), [post], 0)
  }

  // ----- properties -----

  /** Without credentials and with askForAuth === false: "Not authorized", no request, no authorize(). */
  lemma NotAuthorizedWithoutAsking(payload: string, script: seq<Attempt>)
    requires |script| >= 1 && script[0].Unauthenticated?
    ensures CreateItem(payload, Ask(false), script) == Run(Failed(Error(NotAuthorized)), [], 0)
  {
  }

  /** With askForAuth === false createItem never authorizes and never retries: at most one POST. */
  lemma NoAuthorizationWhenAskIsFalse(payload: string, script: seq<Attempt>)
    ensures CreateItem(payload, Ask(false), script).authorizations == 0
    ensures |CreateItem(payload, Ask(false), script).posts| <= 1
  {
  }

  /**
   * Without credentials and allowed to ask, createItem calls authorize() once and then recurses
   * with askForAuth === false, so it never authorizes a second time.
   */
  lemma AuthorizesOnceThenGivesUp(payload: string, ask: AskForAuth, script: seq<Attempt>)
    requires ask != Ask(false)
    requires |script| >= 1 && script[0] == Unauthenticated(Granted)
    ensures CreateItem(payload, ask, script).authorizations == 1
    ensures |CreateItem(payload, ask, script).posts| <= 1
  {
    NoAuthorizationWhenAskIsFalse(payload, script[1..]);
  }

  /** A rejection from authorize() comes back with the "Authentication failed: " prefix. */
  lemma RefusalIsPrefixed(payload: string, ask: AskForAuth, script: seq<Attempt>, reason: string)
    requires ask != Ask(false)
    requires |script| >= 1 && script[0] == Unauthenticated(Refused(reason))
    ensures CreateItem(payload, ask, script).result == Failed(Error("Authentication failed: " + reason))
  {
  }

  /** A 403 is retried only when askForAuth is true; an omitted askForAuth surfaces it after one POST. */
  lemma ForbiddenRetriedOnlyWhenAsked(payload: string, ask: AskForAuth, info: UserInfo, text: string, script: seq<Attempt>)
    requires |script| >= 1 && script[0] == Authenticated(info, Reply(403, text))
    ensures ask != Ask(true) ==>
      CreateItem(payload, ask, script) == Run(Failed(HttpError(Some(403), text)), [ItemsPost(info, payload)], 0)
    ensures ask == Ask(true) ==>
      CreateItem(payload, ask, script).posts == [ItemsPost(info, payload)] + CreateItem(payload, ask, script[1..]).posts
  {
  }

  /** An omitted askForAuth authorizes at most once and posts at most once. */
  lemma OmittedAskIsBounded(payload: string, script: seq<Attempt>)
    ensures CreateItem(payload, Omitted, script).authorizations <= 1
    ensures |CreateItem(payload, Omitted, script).posts| <= 1
  {
    if |script| >= 1 && script[0] == Unauthenticated(Granted) {
      NoAuthorizationWhenAskIsFalse(payload, script[1..]);
    }
  }

  /** `n` copies of `a`. */
  function Repeat<T>(a: T, n: nat): (s: seq<T>)
    ensures |s| == n && forall i :: 0 <= i < n ==> s[i] == a
  {
    if n == 0 then [] else [a] + Repeat(a, n - 1)
  }

  /**
   * With credentials and askForAuth === true, every 403 re-posts: n refusals in a row followed by a
   * success make n + 1 identical POSTs. No retry bound exists.
   */
  lemma {:induction false} ForbiddenRetryIsUnbounded(payload: string, info: UserInfo, forbidden: string, n: nat, created: string)
    ensures CreateItem(payload, Ask(true), Repeat(Authenticated(info, Reply(403, forbidden)), n)
                                           + [Authenticated(info, Reply(201, created))])
      == Run(Created(created), Repeat(ItemsPost(info, payload), n + 1), 0)
  {
    var refusal := Authenticated(info, Reply(403, forbidden));
    var script := Repeat(refusal, n) + [Authenticated(info, Reply(201, created))];
    if n > 0 {
      assert script[0] == refusal;
      assert script[1..] == Repeat(refusal, n - 1) + [Authenticated(info, Reply(201, created))];
      ForbiddenRetryIsUnbounded(payload, info, forbidden, n - 1, created);
    }
  }

  /** When every reply is 403, createItem is still re-posting when the outcomes run out. */
  lemma {:induction false} PersistentForbiddenNeverSurfaces(payload: string, info: UserInfo, forbidden: string, n: nat)
    ensures CreateItem(payload, Ask(true), Repeat(Authenticated(info, Reply(403, forbidden)), n))
      == Run(ScriptEnded, Repeat(ItemsPost(info, payload), n), 0)
  {
    if n > 0 {
      var script := Repeat(Authenticated(info, Reply(403, forbidden)), n);
      assert script[1..] == Repeat(Authenticated(info, Reply(403, forbidden)), n - 1);
      PersistentForbiddenNeverSurfaces(payload, info, forbidden, n - 1);
    }
  }
}
