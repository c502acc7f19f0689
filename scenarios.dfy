/** Runs of several hub events and routes in a row, and what the handlers'
    contracts let a client conclude about them. */
module Scenarios {
  import opened Messages
  import opened Store
  import opened ChatHub
  import MessageRoutes

  /** A soft-deleted message can no longer be edited, and the failed edit leaves
      the scrubbed record as it was. */
  method DeleteThenEdit(hub: Hub, username: string, id: MessageId, text: Json, dbUp: bool, now: int)
    returns (deleteAck: Ack, editAck: Ack)
    requires hub.Valid()
    modifies hub.db
    ensures hub.Valid()
    ensures deleteAck == Ok ==> editAck == Fail
    ensures deleteAck == Ok ==>
      id in old(hub.db.records) && id in hub.db.records
      && hub.db.records[id] == Scrub(old(hub.db.records)[id])
      && hub.db.records[id].deleted && hub.db.records[id].text == DeletedMarker
  {
    var events;
    deleteAck, events := hub.Delete(username, true, Some(id), dbUp);
    editAck, events := hub.Edit(username, true, Some(id), text, dbUp, now);
  }

  /** Deleting a message a second time leaves the repository as the first delete did. */
  method DeleteTwice(hub: Hub, username: string, id: MessageId, dbUp: bool)
    returns (first: Ack, second: Ack)
    requires hub.Valid()
    modifies hub.db
    ensures hub.Valid()
    ensures first == Ok ==> second == Ok
    ensures first == Ok ==>
      id in old(hub.db.records) && hub.db.records == old(hub.db.records)[id := Scrub(old(hub.db.records)[id])]
  {
    var events;
    first, events := hub.Delete(username, true, Some(id), dbUp);
    second, events := hub.Delete(username, true, Some(id), dbUp);
    if first == Ok {
      ScrubIdempotent(old(hub.db.records)[id]);
    }
  }

  /** Liking twice restores who likes the message, though not necessarily the order. */
  method LikeTwice(hub: Hub, username: string, id: MessageId, dbUp: bool)
    returns (first: Ack, second: Ack)
    requires hub.Valid()
    modifies hub.db
    ensures hub.Valid()
    ensures first != Fail ==> second != Fail
    ensures first != Fail ==>
      id in old(hub.db.records) && id in hub.db.records
      && multiset(hub.db.records[id].likes) == multiset(old(hub.db.records)[id].likes)
  {
    var events;
    first, events := hub.Like(username, true, Some(id), dbUp);
    second, events := hub.Like(username, true, Some(id), dbUp);
    if first != Fail {
      ToggleLikeTwice(old(hub.db.records)[id].likes, username);
    }
  }

  /** An unsend by someone other than the author fails and the message stays
      retrievable (`between` is the lookup made after it); an unsend by the author makes it not found. */
  method UnsendByOtherThenAuthor(db: Database, author: string, other: string, id: MessageId, dbUp: bool)
    returns (byOther: MessageRoutes.Response, between: Lookup, byAuthor: MessageRoutes.Response)
    requires db.Valid() && other != author
    requires dbUp && id in db.records && db.records[id].username == author
    modifies db
    ensures db.Valid()
    ensures byOther.status == 403
    ensures between == Found(old(db.records)[id])
    ensures byAuthor.status == 200 && FindById(db.records, id, dbUp).NotFound?
  {
    byOther := MessageRoutes.Unsend(db, true, other, id, dbUp);
    between := FindById(db.records, id, dbUp);
    byAuthor := MessageRoutes.Unsend(db, true, author, id, dbUp);
  }

  /** The HTTP soft delete is refused for an edit afterwards, with the deleted
      check's 400. */
  method RouteDeleteThenEdit(db: Database, author: string, id: MessageId, text: string, dbUp: bool, now: int)
    returns (deleted: MessageRoutes.Response, edited: MessageRoutes.Response)
    requires db.Valid() && text != ""
    requires dbUp && id in db.records && db.records[id].username == author
    modifies db
    ensures db.Valid()
    ensures deleted.status == 200
    ensures edited == MessageRoutes.Response(400, MessageRoutes.ErrorBody("Cannot edit deleted message"))
    ensures id in db.records && db.records[id] == Scrub(old(db.records)[id])
  {
    deleted := MessageRoutes.SoftDelete(db, true, author, id, dbUp);
    edited := MessageRoutes.EditMessage(db, true, author, id, Str(text), dbUp, now);
  }
}
