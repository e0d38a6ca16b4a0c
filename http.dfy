/**
 * What the handlers answer: an HTTP status with a message tag or a dumped
 * event, and what the upstream profile service answers them.
 */
module Http {
  import opened Common
  import opened Models
  import Auth

  /** The message keys the handlers return (localised text is left to the translation tables). */
  datatype Tag =
    | EventNotFound
    | EventDeleted
    | EventAlreadyExists
    | UserAlreadyRegistered
    | RegisteredForEvent
    | UserNotRegistered
    | UnregisteredFromEvent
    | ErrorLoadingUser
    | ProfileUpdated
    | UserNotFound
    | UserDeleted
    | AuthorAlreadyRegistered(author: int)
    | ParticipantNotFound(participant: int)
    | ParticipantsRegistered
    | ParticipantsUnregistered
    | TokenRejected(reason: Auth.TokenError)
    | ValidationFailed
    | InternalError

  /** A response body: a message, or an event as the schema dumps it, with its status at dump time. */
  datatype Body = Message(tag: Tag) | EventDump(event: Event, status: Status)

  datatype Reply = Reply(code: int, body: Body)

  /** An exception the handler does not catch: the framework answers 500. */
  const Crash := Reply(500, Message(InternalError))

  /** `decode_token` raising inside a handler: the application's error handler answers 400. */
  function TokenReply(e: Auth.TokenError): Reply {
    Reply(400, Message(TokenRejected(e)))
  }

  /**
   * The books service's answer to a profile request: its status code and
   * the `name` field of its JSON body, `None` when the field is missing.
   */
  datatype Profile = Profile(status: int, name: Option<string>)

  /** A handler's effect: the store once the request is over, and its reply. */
  datatype Transition = Transition(store: Store, reply: Reply)
}
