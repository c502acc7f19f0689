/** The real-time chat hub: per-socket handlers over the presence map, the typing
    set, the in-memory fallback buffer and the shared message repository. Each
    handler runs as one atomic step; whether the database answered, the clock and
    the ids it would assign arrive as parameters. */
module ChatHub {
  import opened Messages
  import opened Store
  import opened Presence

  const HistoryLimit: nat := 200
  const DefaultUsername: string := "User"

  /** `session.username || 'User'`: the identity a socket keeps for its lifetime. */
  function Identity(sessionUsername: string): (u: string)
    ensures u != ""
    ensures sessionUsername != "" ==> u == sessionUsername
    ensures sessionUsername == "" ==> u == DefaultUsername
  {
    if sessionUsername == "" then DefaultUsername else sessionUsername
  }

  /** The acknowledgement a handler gives its caller: none at all, `{ok:false}`,
      `{ok:true}`, or `{ok:true, likes}`. */
  datatype Ack = NoAck | Fail | Ok | OkLikes(likes: seq<string>)

  /** What the hub emits to every connected socket. */
  datatype Event =
    | PresenceUpdate(online: seq<string>)
    | TypingUpdate(users: seq<string>)
    | ChatNew(msg: Message)
    | MessageLiked(messageId: MessageId, likes: seq<string>)
    | MessageDeleted(messageId: MessageId, deleted: Message)
    | MessageEdited(messageId: MessageId, edited: Message)

  /** The record appended to the fallback buffer when the database write fails:
      a local `<timestamp>-<random>` id, the author, the text and the time. */
  function FallbackMessage(username: string, text: string, now: int, suffix: string): (m: Message)
    ensures m.id == LocalId(now, suffix) && m.username == username && m.text == text
    ensures m.createdAt == now && m.fileId == None && m.fileName == None && m.fileMime == None
    ensures Pristine(m)
  {
    Message(LocalId(now, suffix), username, text, None, None, None, now, false, false, None, "", [])
  }

  class Hub {
    var presence: PresenceMap
    var typing: seq<string>
    var fallback: seq<Message>
    const db: Database

    ghost predicate Valid()
      reads this, db
    {
      && PresenceValid(presence)
      && Distinct(typing)
      && (forall i :: 0 <= i < |fallback| ==> fallback[i].id.LocalId?)
      && db.Valid()
    }

    constructor (db: Database)
      requires db.Valid()
      ensures Valid() && this.db == db
      ensures presence == [] && typing == [] && fallback == []
    {
      this.db := db;
      presence := [];
      typing := [];
      fallback := [];
    }

    /** The `connection` handler: one more socket for the user, the new online
        list to everyone, and the history to the new socket alone. */
    method Connect(sessionUsername: string, dbUp: bool) returns (username: string, update: Event, init: seq<Message>)
      requires Valid()
      modifies this`presence
      ensures Valid()
      ensures username == Identity(sessionUsername)
      ensures presence == ConnectStep(old(presence), username)
      ensures CountOf(presence, username) == old(CountOf(presence, username)) + 1
      ensures forall v :: v != username ==> CountOf(presence, v) == old(CountOf(presence, v))
      ensures update == PresenceUpdate(Online(presence))
      ensures dbUp ==> IsOldestPage(db.records, HistoryLimit, init)
      ensures !dbUp ==> init == LastN(fallback, HistoryLimit)
    {
      username := Identity(sessionUsername);
      presence := ConnectStep(presence, username);
      update := PresenceUpdate(Online(presence));
      if dbUp {
        init := FindOldest(db, HistoryLimit);
      } else {
        init := LastN(fallback, HistoryLimit);
      }
    }

    /** `chat:message`: store the first 4000 characters of the text; when the
        database write fails, keep the record in the fallback buffer instead.
        Either way the record is broadcast and the ack is `{ok:true}`. */
    method SendText(username: string, authenticated: bool, text: Json, dbUp: bool, newId: nat, now: int, suffix: string)
      returns (ack: Ack, events: seq<Event>)
      requires Valid()
      modifies this`fallback, db
      ensures Valid()
      ensures !authenticated ==>
        ack == NoAck && events == [] && fallback == old(fallback) && db.records == old(db.records)
      ensures authenticated ==> ack == Ok && |events| == 1 && events[0].ChatNew?
      ensures authenticated ==>
        var m := events[0].msg;
        m.username == username && m.text == Truncate(OrEmpty(text), MaxText) && m.createdAt == now
        && m.fileId == None && m.fileName == None && m.fileMime == None && Pristine(m)
      ensures authenticated && CreateSucceeds(old(db.records), StoreId(newId), username, dbUp) ==>
        events[0].msg.id == StoreId(newId)
        && db.records == old(db.records)[StoreId(newId) := events[0].msg]
        && fallback == old(fallback)
      ensures authenticated && !CreateSucceeds(old(db.records), StoreId(newId), username, dbUp) ==>
        events[0].msg.id == LocalId(now, suffix)
        && fallback == old(fallback) + [events[0].msg]
        && db.records == old(db.records)
    {
      if !authenticated {
        return NoAck, [];
      }
      var body := Truncate(OrEmpty(text), MaxText);
      var id := StoreId(newId);
      var created := NewMessage(id, username, body, None, None, None, now);
      if dbUp && id !in db.records && created.Some? {
        db.records := db.records[id := created.value];
        events := [ChatNew(created.value)];
      } else {
        var m := FallbackMessage(username, body, now, suffix);
        fallback := fallback + [m];
        events := [ChatNew(m)];
      }
      ack := Ok;
    }

    /** `chat:file`: announce an uploaded file as a message with empty text. A
        missing `fileId` or a failed write acks `{ok:false}`; there is no fallback. */
    method SendFile(username: string, authenticated: bool, fileId: Json, fileName: Json, fileMime: Json,
                    dbUp: bool, newId: nat, now: int)
      returns (ack: Ack, events: seq<Event>)
      requires Valid()
      modifies db
      ensures Valid()
      ensures !authenticated ==> ack == NoAck && events == [] && db.records == old(db.records)
      ensures authenticated && (!Truthy(fileId) || !CreateSucceeds(old(db.records), StoreId(newId), username, dbUp)) ==>
        ack == Fail && events == [] && db.records == old(db.records)
      ensures authenticated && Truthy(fileId) && CreateSucceeds(old(db.records), StoreId(newId), username, dbUp) ==>
        ack == Ok && |events| == 1 && events[0].ChatNew?
        && var m := events[0].msg;
           && db.records == old(db.records)[StoreId(newId) := m]
           && m.id == StoreId(newId) && m.username == username && m.text == "" && m.createdAt == now
           && m.fileId == Some(Shown(fileId))
           && m.fileName == Some(Truncate(OrEmpty(fileName), MaxFileName))
           && m.fileMime == Some(Truncate(OrEmpty(fileMime), MaxFileMime))
           && Pristine(m)
    {
      if !authenticated {
        return NoAck, [];
      }
      if !Truthy(fileId) {
        return Fail, [];
      }
      var id := StoreId(newId);
      var created := NewMessage(id, username, "", Some(Shown(fileId)),
                                Some(Truncate(OrEmpty(fileName), MaxFileName)),
                                Some(Truncate(OrEmpty(fileMime), MaxFileMime)), now);
      if !(dbUp && id !in db.records && created.Some?) {
        return Fail, [];
      }
      db.records := db.records[id := created.value];
      ack, events := Ok, [ChatNew(created.value)];
    }

    /** `chat:message-like`: toggle the caller in the record's likers. */
    method Like(username: string, authenticated: bool, messageId: Option<MessageId>, dbUp: bool)
      returns (ack: Ack, events: seq<Event>)
      requires Valid()
      modifies db
      ensures Valid()
      ensures ack != Fail <==>
        authenticated && messageId.Some? && FindById(old(db.records), messageId.value, dbUp).Found?
      ensures ack == Fail ==> events == [] && db.records == old(db.records)
      ensures ack != Fail ==>
        var id := messageId.value;
        var liked := old(db.records)[id].(likes := ToggleLike(old(db.records)[id].likes, username));
        && db.records == old(db.records)[id := liked]
        && ack == OkLikes(liked.likes)
        && events == [MessageLiked(id, liked.likes)]
    {
      if !authenticated || messageId.None? {
        return Fail, [];
      }
      var id := messageId.value;
      var found := FindById(db.records, id, dbUp);
      if !found.Found? {
        return Fail, [];
      }
      var msg := found.msg;
      var likes := ToggleLike(msg.likes, username);
      ToggleLikeFlips(msg.likes, username);
      msg := msg.(likes := likes);
      db.records := db.records[id := msg];
      ack, events := OkLikes(likes), [MessageLiked(id, likes)];
    }

    /** `chat:typing`: a truthy flag adds the user to the typing set, a falsy one
        removes it; an unauthenticated socket changes nothing. */
    method SetTyping(username: string, authenticated: bool, isTyping: bool) returns (events: seq<Event>)
      requires Valid()
      modifies this`typing
      ensures Valid()
      ensures !authenticated ==> typing == old(typing) && events == []
      ensures authenticated ==>
        typing == (if isTyping then AddUser(old(typing), username) else RemoveUser(old(typing), username))
      ensures authenticated ==> forall v :: v in typing <==> (if v == username then isTyping else v in old(typing))
      ensures authenticated ==> events == [TypingUpdate(typing)]
    {
      if !authenticated {
        return [];
      }
      if isTyping {
        typing := AddUser(typing, username);
      } else {
        typing := RemoveUser(typing, username);
      }
      events := [TypingUpdate(typing)];
    }

    /** `chat:message-delete`: the author scrubs the record in place. */
    method Delete(username: string, authenticated: bool, messageId: Option<MessageId>, dbUp: bool)
      returns (ack: Ack, events: seq<Event>)
      requires Valid()
      modifies db
      ensures Valid()
      ensures ack != Fail <==>
        && authenticated && messageId.Some?
        && var found := FindById(old(db.records), messageId.value, dbUp);
           found.Found? && found.msg.username == username
      ensures ack == Fail ==> events == [] && db.records == old(db.records)
      ensures ack != Fail ==>
        var id := messageId.value;
        var scrubbed := Scrub(old(db.records)[id]);
        && ack == Ok
        && db.records == old(db.records)[id := scrubbed]
        && events == [MessageDeleted(id, scrubbed)]
    {
      if !authenticated || messageId.None? {
        return Fail, [];
      }
      var id := messageId.value;
      var found := FindById(db.records, id, dbUp);
      if !found.Found? || found.msg.username != username {
        return Fail, [];
      }
      var msg := Scrub(found.msg);
      db.records := db.records[id := msg];
      ack, events := Ok, [MessageDeleted(id, msg)];
    }

    /** `chat:message-edit`: the author edits a record that is not deleted. */
    method Edit(username: string, authenticated: bool, messageId: Option<MessageId>, text: Json, dbUp: bool, now: int)
      returns (ack: Ack, events: seq<Event>)
      requires Valid()
      modifies db
      ensures Valid()
      ensures ack != Fail <==>
        && authenticated && messageId.Some? && Truthy(text)
        && var found := FindById(old(db.records), messageId.value, dbUp);
           found.Found? && found.msg.username == username && !found.msg.deleted
      ensures ack == Fail ==> events == [] && db.records == old(db.records)
      ensures ack != Fail ==>
        var id := messageId.value;
        var edited := ApplyEdit(old(db.records)[id], Shown(text), now);
        && ack == Ok
        && db.records == old(db.records)[id := edited]
        && events == [MessageEdited(id, edited)]
    {
      if !authenticated || messageId.None? || !Truthy(text) {
        return Fail, [];
      }
      var id := messageId.value;
      var found := FindById(db.records, id, dbUp);
      if !found.Found? || found.msg.username != username || found.msg.deleted {
        return Fail, [];
      }
      var msg := ApplyEdit(found.msg, Shown(text), now);
      db.records := db.records[id := msg];
      ack, events := Ok, [MessageEdited(id, msg)];
    }

    /** `disconnect`: the user leaves the typing set (whatever their other sockets
        are doing) and loses one socket from the presence map. */
    method Disconnect(username: string) returns (events: seq<Event>)
      requires Valid()
      modifies this`typing, this`presence
      ensures Valid()
      ensures typing == RemoveUser(old(typing), username) && username !in typing
      ensures presence == DisconnectStep(old(presence), username)
      ensures CountOf(presence, username) ==
        if old(CountOf(presence, username)) <= 1 then 0 else old(CountOf(presence, username)) - 1
      ensures forall v :: v != username ==> CountOf(presence, v) == old(CountOf(presence, v))
      ensures events == [TypingUpdate(typing), PresenceUpdate(Online(presence))]
    {
      typing := RemoveUser(typing, username);
      var typingUpdate := TypingUpdate(typing);
      presence := DisconnectStep(presence, username);
      events := [typingUpdate, PresenceUpdate(Online(presence))];
    }
  }
}
