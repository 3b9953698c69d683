/** The stored records the core reads and writes: the fields of a chat message and of a
    user that the modelled code consults. */
module Schemas {
  import opened Common

  /** A direct message as the client sends it with `sendMessage`. `recipient` may be absent. */
  datatype Draft = Draft(
    sender: UserId,
    recipient: Option<UserId>,
    content: string,
    messageType: string,
    fileUrl: Option<string>)

  /** A persisted message document. `recipient` is absent (null) for channel messages;
      `timestamp` is the creation time in milliseconds. */
  datatype Message = Message(
    id: nat,
    sender: UserId,
    recipient: Option<UserId>,
    content: string,
    messageType: string,
    fileUrl: Option<string>,
    timestamp: int)

  /** A user document: the id and the three fields the contact search looks at, each of
      which may be missing from the document. */
  datatype User = User(
    id: UserId,
    firstName: Option<string>,
    lastName: Option<string>,
    email: Option<string>)
}
