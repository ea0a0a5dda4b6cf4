/**
 * What the core sends and receives. Zotero.HTTP.request, the browser's windows and tabs, and
 * the OAuth signing library are collaborators: their results reach the model as parameters,
 * and what the core asks of them is returned as a list of effects.
 */
module Transport {
  import opened Wrappers
  import Utf8

  datatype Verb = Get | Post

  /** The endpoints used; the base URLs come from configuration. */
  datatype Endpoint =
    | RequestToken                              // the OAuth request-token URL
    | AccessToken                               // the OAuth access-token URL
    | CurrentKey(userID: string)                // users/<userID>/keys/current
    | Items(userID: string)                     // users/<userID>/items
    | ItemFile(userID: string, itemKey: string) // users/<userID>/items/<itemKey>/file
    | Storage(url: string)                      // the one-time URL the server hands out

  datatype Body = NoBody | Text(text: string) | Bytes(bytes: seq<Utf8.byte>)

  /** A request, with the Zotero-API-Key, Content-Type and If-None-Match headers it carries. */
  datatype Request = Request(
    verb: Verb,
    target: Endpoint,
    apiKey: Option<string>,
    contentType: Option<string>,
    ifNoneMatch: bool,
    body: Body)

  /** What the transport gives back: a response, or no response at all. */
  datatype Reply = Reply(status: int, text: string) | NoReply

  /** Zotero.HTTP.request resolves only on a 2xx status unless told to accept any status. */
  predicate Succeeded(reply: Reply) {
    reply.Reply? && 200 <= reply.status < 300
  }

  /** A thrown Error: one built from a message, or the transport's failure object. */
  datatype Error = Error(message: string) | HttpError(status: Option<int>, responseText: string)

  function Failure(reply: Reply): Error {
    match reply
    case Reply(status, text) => HttpError(Some(status), text)
    case NoReply => HttpError(None, "")
  }

  datatype Effect =
    | Send(request: Request)
    | OpenWindow(url: string)
    | BringToFront(window: nat)
    | CloseTab(tab: nat)

  const FormType := "application/x-www-form-urlencoded"
  const JsonType := "application/json"
}
