/**
 * The values the kicker bot exchanges with Slack, reduced to the fields the
 * lobby logic reads or writes. The lobby has no store of its own: the message
 * Slack sends back with every button click is the whole state of the lobby.
 */
module Slack {

  datatype Option<T> = None | Some(value: T)

  /**
   * One attachment of the lobby message. The bot always gives an attachment
   * exactly one button; `name` and `value` are that button's `Name` and
   * `Value`. Colour, style, button text and the fallback/callback strings are
   * presentation only and are not modelled.
   */
  datatype Slot = Slot(title: string, name: string, value: string)

  /** `response_type` of a message: not set, visible to the channel, or private. */
  datatype ResponseType = Unset | InChannel | Ephemeral

  /** A chat message as the handlers read and write it. */
  datatype Msg = Msg(
    text: string,
    slots: seq<Slot>,
    responseType: ResponseType,
    replaceOriginal: bool,
    deleteOriginal: bool,
    threadTs: string)

  /**
   * What a handler does with one request: answer with status 500 and no body,
   * answer with status 200 and a JSON message, or (full lobby only) answer
   * with a message and also POST a second message to the response URL. A
   * handler that panics answers nothing: the HTTP server recovers the panic
   * and closes the connection, so the request is dropped.
   */
  datatype Response =
    | Dropped
    | ServerError
    | Reply(body: Msg)
    | ReplyAndPost(body: Msg, post: Msg)

  /** `sub` occurs in `s` starting at position `j`. */
  predicate OccursAt(s: string, sub: string, j: nat)
  {
    j + |sub| <= |s| && s[j..j + |sub|] == sub
  }

  /** Go's `strings.Contains`: `sub` occurs somewhere in `s`. */
  predicate Contains(s: string, sub: string)
  {
    exists j: nat | j <= |s| - |sub| :: OccursAt(s, sub, j)
  }

  /** A substring whose first character does not occur in `s` is not contained in `s`. */
  lemma {:induction false} MissingFirstChar(s: string, sub: string)
    requires |sub| > 0 && sub[0] !in s
    ensures !Contains(s, sub)
  {
    forall j: nat | j + |sub| <= |s| ensures !OccursAt(s, sub, j) {
      assert s[j..j + |sub|][0] == s[j];
    }
  }
}
