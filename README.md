# Chat-app server: presence registry, upload classification, contact search and message history

A Dafny model of the logic inside an Express/Socket.IO chat backend:

- **Presence and direct-message fan-out** (`socket.js`): the hub keeps `userSocketMap`, a
  JavaScript `Map` from user id to socket id. A connection with a truthy `userId` binds the
  user to the new socket, replacing any earlier socket of that user (one socket per user).
  A disconnect scans the map in insertion order and deletes the first entry whose socket id
  is the disconnecting socket. `sendMessage` reads the sender's and the recipient's socket
  ids, persists the message, re-reads it, and emits it to the recipient and then to the
  sender, each only if bound. Module `Presence`, class `SocketRegistry`.
- **Upload classification** (`middlewares/multerMiddleware.js`): the extension of the
  original file name is the lower-cased text after the last dot. It selects the resource
  type, the folder and the accepted format list of a chat attachment. Module `Uploads`.
- **Contact search** (`controllers/contactsController.js`): the term is escaped so that
  every regular-expression metacharacter stands for itself. The users other than the
  requester whose first name, last name or email contain the term (ignoring case) are
  returned. Module `Contacts`.
- **Message history and file upload response** (`controllers/messagesController.js`):
  `getMessages` checks both user ids, selects the messages between the two users in either
  direction and sorts them by timestamp. `uploadFile` answers 400, 500 or 200. Module
  `Messages`.

Shared modules: `Common` (Option, the JavaScript truthiness of an optional string, the
outcome of a store call, status codes), `Text` (ASCII lower-casing, substring containment),
`Schemas` (the message and user records).

Modelling choices:

- The JS `Map` is the ordered sequence of its entries (`seq<Binding>`), because its
  iteration order decides which entry the disconnect loop deletes. `AsMap` gives the
  `map<UserId, SocketId>` view, and `SocketRegistry.Sockets()` returns it.
- Socket ids are non-empty strings, as socket.io generates them, so "the socket id is truthy"
  is the same as "the user is bound".
- Store calls are not executed. `Message.create` together with the populated `findById`
  re-read is a parameter `StoreStep`: it either threw, or resolved to the document or to
  null. `Message.find` and `User.find` take a `Store<T>`, which holds either the stored
  records or a failure.
- The regular-expression engine is modelled only for patterns made of literal atoms
  (`LiteralPattern`). The escaper produces only such patterns, as `EscapeRoundTrip` shows.
  Case-insensitivity is ASCII lower-casing.
- MongoDB does not specify the order of messages with equal timestamps. The model's
  insertion sort (`SortByTime`) keeps them in store order (`SortByTimeStable`). Its other
  proved properties, sorted and a permutation of the selection, hold for any tie order.

Behaviour of the code worth knowing:

- One socket per user: `socket.js:60` overwrites the earlier socket of a user who connects
  again, so a second tab or device takes over the user's deliveries.
- The socket ids are read before the `await` (`socket.js:29-30`). If the recipient's socket
  disconnects while the message is stored, the message is still emitted to the old socket
  id, which the transport drops (`SnapshotOutlivesDisconnect`). If the recipient also
  reconnects during the `await`, the stored message goes to the dead socket id and not to
  the recipient's new socket (`ReconnectDuringStoreMissesNewSocket`).
- The disconnect handler (`socket.js:16-24`) returns nothing and frees at most one entry.
- Channel fan-out, typing indicators and read receipts do not occur in `socket.js`.

## Model

| member | source | states |
|---|---|---|
| Presence.IndexOfSocket | socket.js:18-19 | the first entry, in insertion order, bound to the socket, or -1 exactly when no entry is |
| Presence.AsMapLookup | socket.js:29-30 | `get(u)` finds `u` exactly when an entry for `u` exists, and returns that entry's socket |
| Presence.MapSet | socket.js:59-60 | `set(u, s)` binds `u` to `s` in the map view and changes no other user; it appends only for a new user and keeps keys distinct |
| Presence.SocketRegistry.Connect | socket.js:56-64 | a truthy `userId` is bound to the socket, replacing its earlier socket; without one the registry is unchanged; a fresh socket id keeps the one-user-per-socket invariant |
| Presence.ConnectFreshPreservesInvariant | socket.js:59-60 | binding a socket id no user holds keeps keys distinct and every socket under at most one user |
| Presence.RemoveFirstBySocket | socket.js:16-24 | with no entry bound to the socket the registry is unchanged; otherwise exactly the first such entry is deleted and everything else is kept in order |
| Presence.SocketRegistry.Disconnect | socket.js:16-24 | the loop deletes the first matching entry and only it; under the invariant the map view loses exactly the users bound to the socket and the socket is bound to nobody afterwards |
| Presence.RemovePreservesInvariants | socket.js:18-23 | a disconnect keeps keys distinct and every socket under at most one user |
| Presence.DisconnectIdempotent | socket.js:18-23 | under the invariant the disconnected socket is unbound afterwards, so a second disconnect of it changes nothing |
| Presence.DisconnectAsMap | socket.js:18-23 | in the map view a disconnect drops the users bound to that socket and keeps every other user's socket |
| Presence.StaleDisconnectKeepsReconnect | socket.js:18-60 | after a user reconnects on a new socket, the old socket's disconnect leaves the new binding in place |
| Presence.SocketRegistry.constructor | socket.js:13 | the registry starts empty, with distinct users |
| Presence.SocketRegistry.SocketOf | socket.js:29-30 | the socket a user is bound to, present exactly when the user is in the map |
| Presence.Deliveries | socket.js:41-49 | nothing when storing threw; otherwise one emission per bound party, recipient first and sender last, all `receiveMessage` with the re-read data and only to the two snapshot sockets |
| Presence.SocketRegistry.SendMessage | socket.js:27-53 | the emissions are those of the sender's and recipient's sockets as bound when called: at most two, each to a bound socket |
| Presence.SelfMessageEmittedTwice | socket.js:42-49 | a message an online user sends to themself is emitted twice to the same socket |
| Presence.SnapshotOutlivesDisconnect | socket.js:29-34 | whether or not the sender is online, a recipient whose socket disconnects during the store call is no longer bound, yet the first emission still goes to that socket with the stored data |
| Presence.ReconnectDuringStoreMissesNewSocket | socket.js:29-60 | a recipient who reconnects on a new socket during the store call is bound to the new socket afterwards, but the message goes first to the old socket and never to the new one |
| Text.Lower | middlewares/multerMiddleware.js:22 | `toLowerCase` for ASCII text: keeps the length, lower-cases each ASCII capital and copies every other character, so the result has no ASCII capitals |
| Uploads.Split | middlewares/multerMiddleware.js:22 | `split('.')` yields at least one piece, no piece contains a dot, and joining the pieces with dots gives back the name |
| Uploads.Extension | middlewares/multerMiddleware.js:22 | the extension contains no dot and no ASCII capital |
| Uploads.ExtensionAfterLastDot | middlewares/multerMiddleware.js:22 | the extension is the lower-cased text after the last dot |
| Uploads.NoDotIsOnePiece | middlewares/multerMiddleware.js:22 | a name without a dot is one piece, and its extension is the whole name lower-cased |
| Uploads.ExtensionIgnoresCase | middlewares/multerMiddleware.js:22 | names equal up to ASCII case have the same extension, so they classify alike |
| Uploads.FileParams | middlewares/multerMiddleware.js:21-51 | image extensions give `image`, `chat-app-images` and the image list; video extensions give `video`, `chat-app-videos` and the video list; otherwise `raw`, `chat-app-files` and no format key; the chunk size is always 6000000 |
| Uploads.ImageAndVideoDisjoint | middlewares/multerMiddleware.js:23-24 | no extension is in both lists, so each extension gets exactly one classification |
| Uploads.ProfileFormatsAreImages | middlewares/multerMiddleware.js:11 | profile pictures are limited to jpg, jpeg and png, each also a chat image format |
| Contacts.EscapeChar | controllers/contactsController.js:11 | a metacharacter becomes a backslash followed by it; any other character is copied |
| Contacts.Escape | controllers/contactsController.js:11 | the output is as long as the input plus its number of metacharacters; a term without metacharacters is unchanged |
| Contacts.EscapeAppend | controllers/contactsController.js:11 | escaping works character by character: the escape of a concatenation is the concatenation of the escapes |
| Contacts.NoMetaEscapesToItself | controllers/contactsController.js:11 | a term none of whose characters is a metacharacter escapes to itself; the character-wise form of `Escape`'s count-based clause, which is what a caller can check of a term |
| Contacts.EscapeRoundTrip | controllers/contactsController.js:11-12 | stripping the backslash before every escaped character recovers the term: the escaped pattern denotes the literal term |
| Contacts.EscapeInjective | controllers/contactsController.js:11 | different terms escape to different patterns |
| Contacts.LiteralPattern | controllers/contactsController.js:12 | a pattern of literal atoms denotes a string no longer than the pattern; any other pattern is not interpreted |
| Contacts.RegexTest | controllers/contactsController.js:12-16 | the case-insensitive test of a field only succeeds on a present field and an interpreted pattern |
| Contacts.EscapedTestIsContainment | controllers/contactsController.js:11-16 | the escaped term matches a field exactly when the field is present and contains the term ignoring case |
| Contacts.Selected | controllers/contactsController.js:14-18 | a selected user is not the requester and has at least one of first name, last name and email |
| Contacts.SelectedIsMatch | controllers/contactsController.js:11-18 | the query built from the escaped term selects a user exactly when the user is not the requester and a present field contains the term ignoring case |
| Contacts.Select | controllers/contactsController.js:14-18 | the result is exactly the stored users that are not the requester and have a field matching the pattern |
| Contacts.SearchContacts | controllers/contactsController.js:4-27 | 400 exactly for an undefined or null term (the empty term is searched); otherwise each returned user is stored, is not the requester and has a present name or email containing the term ignoring case, and every such user is returned; status 200 exactly when a term is present and the query succeeds |
| Contacts.RequesterExcluded | controllers/contactsController.js:15 | the requester is never among the contacts returned |
| Contacts.EmptyTermMatchesAnyPresentField | controllers/contactsController.js:8-16 | the empty term matches every other user who has a first name, last name or email |
| Messages.Between | controllers/messagesController.js:17-20 | a message matched by the `$or` has a recipient, and its sender and recipient are each one of the two users |
| Messages.Conversation | controllers/messagesController.js:16-20 | every selected message goes from one of the two users to the other, and every stored message that does is selected |
| Messages.ConversationCounts | controllers/messagesController.js:16-20 | each matching message is selected as many times as it is stored |
| Messages.ConversationSymmetric | controllers/messagesController.js:17-20 | swapping the two users selects the same messages in the same order |
| Messages.ThirdPartyExcluded | controllers/messagesController.js:17-20 | a message with no recipient or involving a third party is never selected |
| Messages.SortByTime | controllers/messagesController.js:21 | the result is in non-decreasing timestamp order and is a permutation of its input |
| Messages.SortByTimeStable | controllers/messagesController.js:21 | the model keeps the messages of each timestamp in their store order |
| Messages.GetMessages | controllers/messagesController.js:5-37 | 400 exactly when a user id is missing or empty, whatever the store; 500 when the query fails; otherwise the messages between the two users, sorted by timestamp, each as often as stored; status 200 exactly when both ids are truthy and the query succeeds |
| Messages.GetMessagesSymmetric | controllers/messagesController.js:16-21 | swapping the two user ids yields the same reply |
| Messages.UploadFile | controllers/messagesController.js:40-66 | 400 exactly when there is no file, 500 exactly when the file has no path, otherwise 200 with the file's path, MIME type and size |

## Left out

- Socket.IO transport, CORS and the `connection`/`disconnect` event wiring (socket.js:5-11, 56-71): only the registry operations and the emission list are modelled.
- Concurrency between connections: operations run one at a time. Two interleavings during `sendMessage`'s store call, a disconnect and a disconnect followed by a reconnect, are stated by `SnapshotOutlivesDisconnect` and `ReconnectDuringStoreMissesNewSocket`.
- Persisting the message: the document `Message.create` writes is not recorded. Its outcome and that of the populated re-read are the parameter `StoreStep`. The field projection of `populate` is not modelled.
- `console.log` and `console.error` output is not modelled.
- Presence.SocketRegistry.Connect: the one-user-per-socket invariant is preserved only for a socket id no user holds. socket.io never reuses a socket id, so `Valid()` keeps only distinct users and not this invariant.
- Cloudinary uploads, multer storage plumbing and the `Date.now()` public ids (middlewares/multerMiddleware.js:12, 43): they have no behaviour beyond calling these libraries.
- Contacts.SearchContacts: a search term that is present but not a string makes `replace` throw, which gives a 500 reply. The model takes the term as a string, so it does not model this case.
- Presence.SocketRegistry.SendMessage: the payload is a `Draft` whose `sender` is always a string. A `sendMessage` event with no payload or a null payload throws at `socket.js:28`, before the `try`; the rejected promise is not handled anywhere and, on current Node.js, ends the process. That case and an absent `sender` are not modelled.
- Messages.GetMessages: the other user id is taken as an optional string. `req.body.id` may be any JSON value: a falsy non-string (`0`, `false`) gets 400 as modelled, but a truthy non-string reaches the query, whose outcome the model does not cover.
- Messages.UploadFile: its `catch` branch (500 "Failed to upload file") is unreachable in the model, because only logging could throw there.
- Unicode case folding in `toLowerCase` and the `i` regex flag: the model uses ASCII case-insensitivity.
- MongoDB details: ObjectId versus string comparison, and query operators beyond the ones used.
- The chatbot controller: it calls an external AI service and relies on a registry export that `socket.js` does not provide.
- Authentication, JWT and cookies (controllers/authController.js, middlewares/authMiddlewares.js): they are thin wrappers around a library.
- `createChannel` (controllers/channelController.js): it only accesses the database, and its membership check compares a query object that is never awaited.
- Route tables and `index.js` start-up: they only wire components together.
