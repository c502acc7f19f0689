# Chat hub model

A Dafny model of the server core of a small private chat service. The core has three parts.

**The socket hub.** It tracks:
- presence: username → number of open sockets;
- the set of users who are typing;
- an in-memory fallback buffer for messages that could not be written to the database.

It handles the socket events `connection`, `chat:message`, `chat:file`, `chat:message-like`, `chat:typing`, `chat:message-delete`, `chat:message-edit` and `disconnect`.

**The HTTP routes under `/api/messages`.** They cover soft delete, edit, like toggle and unsend. They apply the same record rules as the hub and answer with HTTP status codes.

**The message record.** Its fields and defaults come from the message schema.

Files:

- `message.dfy` (module `Messages`): the record, its defaults, and the rules that change one record. These are the 4000/256/128-character truncation, the like toggle, the soft-delete scrub and the edit rule. The hub and the routes share them.
- `store.dfy` (module `Store`): the message collection.
  - It is a `Database` object holding `map<MessageId, Message>`.
  - `findById` has three outcomes: thrown error, not found, found.
  - The connect-time history query is modelled as a scan, a sort by creation time and a limit.
- `presence.dfy` (module `Presence`): the presence map and the typing set.
  - Both are kept as insertion-ordered sequences, because the broadcast lists follow the iteration order of a JavaScript `Map` and `Set`.
  - A connect/disconnect replay shows that every count equals the number of sockets left open.
- `hub.dfy` (module `ChatHub`): the `Hub` class, with one method per socket handler.
- `routes.dfy` (module `MessageRoutes`): the four routes as methods over the shared `Database`.
- `scenarios.dfy` (module `Scenarios`): client runs of several events in a row. They show:
  - a delete followed by an edit;
  - a delete done twice;
  - a like done twice;
  - an unsend by someone else and then by the author.

Modelling choices:

- **Inputs as parameters.** The following arrive as parameters:
  - whether the database answers (`dbUp`, one flag per handler);
  - the clock (`now`);
  - the id the database would assign (`newId`);
  - the random suffix of a fallback id;
  - the session's `isAuthenticated` flag.
- **Failed database calls.** A failed `save` after a successful `findById` discards the in-memory change. So one flag covers both calls.
- **Insert collisions.** An insert whose id is already taken fails like any other database error.
- **Ids.** A `MessageId` is either a repository id or a fallback `<timestamp>-<random>` id.
  - A fallback id cannot be cast to a repository id, so `findById` throws on it.
  - The socket handlers then ack `{ok:false}`, and the routes answer 500.
  - So like, edit, delete and unsend never reach a fallback record.
- **Payload fields.** A payload field is `Json`: absent, a string, or another value described by its truthiness and its `toString()`. This keeps JavaScript's `||` and truthiness tests faithful.

Behaviour of the code worth noting:

- On connect, the repository is read with an ascending sort on `createdAt` and a limit of 200 (backend/src/socket/chat.js:31). This returns the **oldest** 200 messages, not the most recent. `Store.FindOldest` states exactly that.
- The fallback buffer is not bounded (backend/src/socket/chat.js:6, 46-54). It grows with every failed write, and only the history read is limited to its last 200 entries.
- The server accepts a text message with empty text and no file (`Messages.EmptyTextAccepted`).
- The snapshot of the original text is taken whenever `originalText` is empty. So a message whose text was empty (a file message) records its first edited text as the "original" on its second edit (`Messages.EditResnapshotsEmptyOriginal`).
- Unsend exists only as an HTTP route, not as a socket event.

## Model

| member | source | states |
|---|---|---|
| `Messages.OrEmpty` | backend/src/socket/chat.js:41 | definition of `(x || '').toString()`: a falsy payload field reads as the empty string, a truthy one as its `toString()` |
| `Messages.Truncate` | backend/src/socket/chat.js:41 | `slice(0, n)` is the prefix of the input of length min(n, length) |
| `Messages.NewMessage` | backend/src/models/Message.js:3-15 | creation fails exactly when the required username is empty; a created record has the given id, author, text, file fields and time, with `deleted`/`edited` false, no `editedAt`, empty `originalText` and no likes |
| `Messages.EmptyTextAccepted` | backend/src/socket/chat.js:41-43 | a text message with empty text and no file is created |
| `Messages.IndexOf` | backend/src/socket/chat.js:91 | the result is -1 exactly when the user is absent, otherwise the first position holding the user |
| `Messages.ToggleLike` | backend/src/socket/chat.js:91-93 | an absent user is appended; a present user's first occurrence is spliced out, the other likers keeping their order, and the length drops by one |
| `Messages.ToggleLikeMultiset` | backend/src/routes/messages.js:73-75 | a toggle adds or removes exactly one occurrence of the user and leaves every other liker's count unchanged |
| `Messages.ToggleLikeFlips` | backend/src/socket/chat.js:91-93 | with no duplicate likers, a toggle flips whether the user likes the message and keeps the list duplicate-free |
| `Messages.ToggleLikeTwice` | backend/src/socket/chat.js:91-94 | two toggles restore the multiset of likers, and the exact list when the user had not liked it |
| `Messages.ToggleLikeTwiceReorders` | backend/src/socket/chat.js:92-93 | two toggles can move the user to the end: order is not restored |
| `Messages.Scrub` | backend/src/socket/chat.js:142-145 | soft delete sets `deleted`, text `[deleted]`, clears `fileId` and `fileName`, and keeps `fileMime`, likes, author, times and edit fields |
| `Messages.ScrubIdempotent` | backend/src/routes/messages.js:19-22 | deleting twice gives the same record as deleting once |
| `Messages.ApplyEdit` | backend/src/socket/chat.js:164-169 | `originalText` becomes the old text only when it was empty; text becomes the first 4000 characters; `edited` set with the edit time; all else kept |
| `Messages.EditSnapshotsOnce` | backend/src/routes/messages.js:52-57 | for any never-edited message with non-empty text and no snapshot (liked or not), the first edit snapshots that text and a second edit keeps the snapshot while the text changes |
| `Messages.EditResnapshotsEmptyOriginal` | backend/src/socket/chat.js:164-166 | when the text was empty, the second edit snapshots the first edit's text |
| `Store.FindById` | backend/src/socket/chat.js:88-89 | definition of the `findById` call: found exactly when the database answers and the repository id is stored, with that record; a fallback id or a database failure throws |
| `Store.InsertByTime` | backend/src/socket/chat.js:31 | inserting into a creation-time-sorted list keeps it sorted and adds exactly that record |
| `Store.SortByTime` | backend/src/socket/chat.js:31 | the result is sorted by `createdAt` and is a permutation of the input |
| `Store.ScanAll` | backend/src/socket/chat.js:31 | the scan lists every stored record exactly once |
| `Store.PrefixStored` | backend/src/socket/chat.js:31 | every record in a prefix of a reordered scan is stored under its own id |
| `Store.PrefixOldest` | backend/src/socket/chat.js:31 | no stored record left out of a sorted prefix is older than a record in it |
| `Store.OldestPageOfSorted` | backend/src/socket/chat.js:31 | the first `limit` records of a sorted scan form the oldest page |
| `Store.FindOldest` | backend/src/socket/chat.js:31 | history is min(200, size) distinct stored records in ascending `createdAt`, and none left out is older than one returned |
| `Store.LastN` | backend/src/socket/chat.js:34 | for any positive n, `slice(-n)` is the last min(n, length) entries in insertion order (the source calls it with 200) |
| `Presence.KeyIndex` | backend/src/socket/chat.js:24 | -1 exactly when the user has no entry, otherwise the position of its entry |
| `Presence.CountOf` | backend/src/socket/chat.js:24 | a user's stored count, or 0 when the user has no entry |
| `Presence.SetCount` | backend/src/socket/chat.js:25 | `set` gives the user the new count, keeps one entry per user and leaves every other count unchanged |
| `Presence.RemoveKey` | backend/src/socket/chat.js:186 | `delete` leaves the user with count 0 and every other count unchanged |
| `Presence.ConnectStep` | backend/src/socket/chat.js:24-25 | connect raises the user's count by exactly 1, keeps every stored count at least 1 and leaves other users' counts unchanged |
| `Presence.DisconnectStep` | backend/src/socket/chat.js:184-189 | disconnect removes the entry when the count is at most 1, otherwise subtracts 1; counts stay at least 1 and other users are unchanged |
| `Presence.Online` | backend/src/socket/chat.js:12-17 | the online list holds every user with a positive stored count and no one else |
| `Presence.OnlineDistinct` | backend/src/socket/chat.js:13-15 | with one entry per user, no user is listed online twice |
| `Presence.OnlineIffCounted` | backend/src/socket/chat.js:13-15 | a user is listed online iff their count is positive |
| `Presence.Replay` | backend/src/socket/chat.js:24-25 | after any sequence of connects and disconnects, the map has one entry per user and no count below 1 |
| `Presence.ReplayCountsOpenSockets` | backend/src/socket/chat.js:184-189 | after any well-nested sequence of connects and disconnects, each count equals the user's number of open sockets |
| `Presence.ReplayOnline` | backend/src/socket/chat.js:12-17 | after any well-nested sequence, the online list is exactly the users with an open socket |
| `Presence.AddUser` | backend/src/socket/chat.js:125 | `add` puts the user in the typing set with set semantics |
| `Presence.RemoveUser` | backend/src/socket/chat.js:127 | `delete` takes the user out of the typing set and keeps everyone else |
| `ChatHub.Identity` | backend/src/socket/chat.js:21 | the socket's identity is the session username, or `User` when it is empty; never empty |
| `ChatHub.FallbackMessage` | backend/src/socket/chat.js:48-53 | the fallback record has the local `<timestamp>-<random>` id, the author, the text and the time |
| `ChatHub.Hub.constructor` | backend/src/socket/chat.js:6-10 | the hub starts with no presence, no typing users and an empty fallback buffer |
| `ChatHub.Hub.Connect` | backend/src/socket/chat.js:20-36 | presence gains one socket for the user and others are unchanged; the online list is broadcast; history is the oldest 200 stored records, or the last 200 fallback records when the read fails |
| `ChatHub.Hub.SendText` | backend/src/socket/chat.js:38-61 | unauthenticated: no ack, no event, no change; else the record with the first 4000 characters goes to the store, or to the fallback buffer when the write fails, is broadcast once, and the ack is `{ok:true}` either way |
| `ChatHub.Hub.SendFile` | backend/src/socket/chat.js:63-80 | unauthenticated: silent; a falsy `fileId` or failed write acks `{ok:false}` with no change; else a record with empty text and the name/mime cut to 256/128 is stored and broadcast |
| `ChatHub.Hub.Like` | backend/src/socket/chat.js:83-100 | succeeds iff authenticated, an id is given and the record is found; then only that record's likers are toggled and the new list is broadcast and acked; otherwise `{ok:false}` and no change |
| `ChatHub.Hub.SetTyping` | backend/src/socket/chat.js:122-130 | a truthy flag adds the user and a falsy one removes it, others unchanged, and the whole set is broadcast; unauthenticated changes nothing |
| `ChatHub.Hub.Delete` | backend/src/socket/chat.js:133-152 | succeeds iff authenticated, the record is found and the caller is its author; then only that record is scrubbed and broadcast; otherwise `{ok:false}` and no change |
| `ChatHub.Hub.Edit` | backend/src/socket/chat.js:155-176 | succeeds iff authenticated, id and truthy text given, record found, caller is the author and it is not deleted; then only that record is edited and broadcast |
| `ChatHub.Hub.Disconnect` | backend/src/socket/chat.js:178-191 | the user leaves the typing set even with other sockets open; presence loses one socket (the entry goes at count 1); both lists are broadcast |
| `MessageRoutes.LookupFailure` | backend/src/routes/messages.js:11-14 | definition of the routes' lookup failure answers: a thrown lookup answers 500, a missing record 404 |
| `MessageRoutes.SoftDelete` | backend/src/routes/messages.js:8-29 | 401 unauthenticated, 500 on a thrown lookup, 404 not found, 403 non-author, else 200 with the scrubbed record; only that record changes, and no failure changes anything |
| `MessageRoutes.EditMessage` | backend/src/routes/messages.js:32-64 | 400 for missing, empty or non-string text before any lookup, then 500/404, 403 non-author, 400 deleted; on 200 only that record gets the edit rule; no failure changes anything |
| `MessageRoutes.LikeMessage` | backend/src/routes/messages.js:67-82 | any signed-in user toggles with no author check; 500/404 on a failed lookup; on 200 only that record's likers change and the new list is returned |
| `MessageRoutes.Unsend` | backend/src/routes/messages.js:85-97 | 500/404 on a failed lookup; 403 for a non-author with the record kept; 200 for the author with the id removed, so a later lookup is not found |
| `Scenarios.DeleteThenEdit` | backend/src/socket/chat.js:139-163 | after a successful delete, an edit of that message fails and the scrubbed record stays |
| `Scenarios.DeleteTwice` | backend/src/socket/chat.js:138-146 | a second delete also succeeds and leaves the store as the first did |
| `Scenarios.LikeTwice` | backend/src/socket/chat.js:88-94 | two likes by the same user both succeed and restore the multiset of likers |
| `Scenarios.UnsendByOtherThenAuthor` | backend/src/routes/messages.js:88-91 | a non-author unsend is 403 and a lookup right after it still finds the record unchanged; the author's unsend is 200 and the record is then not found |
| `Scenarios.RouteDeleteThenEdit` | backend/src/routes/messages.js:48-50 | after a soft delete, the PATCH edit answers 400 and the scrubbed record stays |

## Left out

- The call-signalling relay (`call:initiate`, `call:offer`, `call:answer`, `call:ice-candidate`, `call:end`, backend/src/socket/chat.js:103-119): stateless re-emits of `{from, to, payload}` with no rules beyond copying fields.
- The transport: socket.io and Express wiring, broadcasting to sockets, and the handshake gate in backend/server.js. Only sockets with an authenticated session reach `Hub.Connect`, and each handler receives the session's current `isAuthenticated` flag.
- Concurrency: each handler is one atomic step. The interleaving of handlers at their database `await` points is not modelled.
- Exceptions other than database failures: a payload whose `toString()` throws would take the handlers' outer `catch`, which acks `{ok:false}` or answers 500. The model has no such payloads.
- `Messages.Truncate` counts characters, while JavaScript's `slice` counts UTF-16 code units. The two differ for text outside the Basic Multilingual Plane.
- `ChatHub.FallbackMessage`: the source's fallback record is a plain object with only `_id`, `username`, `text` and `createdAt` (an ISO string). The model gives it the schema defaults for the other fields and an integer time.
- Fallback ids are not proved unique: they come from the clock and `Math.random`, which are parameters here.
- The repository's tie order for equal `createdAt` values is not fixed: `Store.FindOldest` allows any order among ties.
- ChatHub.Hub.SendFile: does not model Mongoose's refusal to cast a plain object or an array `fileId` to a string. For such a truthy `fileId` the source's `Message.create` throws and the handler acks `{ok:false}` (backend/src/socket/chat.js:77-78); the model stores the value's `toString()` and acks `{ok:true}`, because a `Json` value other than a string carries only its truthiness and its `toString()`.
- The 24-character username limit and the bcrypt login belong to the authentication route, which is not part of this model. The files router (uploads and downloads) is not part of this model either.
- The frontend, which fires both the HTTP route and the socket event for like, edit and delete, is not part of this model. Each server path is modelled on its own.
