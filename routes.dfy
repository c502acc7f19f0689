/** The HTTP routes under `/api/messages`: soft delete, edit, like toggle and
    unsend. Each one reads and writes only the record named in the path and
    answers with a status code. The record rules are the ones the socket hub
    applies. `authenticated` is the session flag the `requireAuth` guard tests. */
module MessageRoutes {
  import opened Messages
  import opened Store

  datatype Body =
    | ErrorBody(error: string)
    | OkMessage(msg: Message)
    | OkLikes(likes: seq<string>)
    | OkEmpty

  datatype Response = Response(status: nat, body: Body)

  const Unauthorized := Response(401, ErrorBody("Unauthorized"))
  const NotFoundResponse := Response(404, ErrorBody("Message not found"))
  const Forbidden := Response(403, ErrorBody("Not authorized"))

  /** The status a route answers when the lookup did not find a record: a thrown
      lookup error is 500, a missing record 404. */
  function LookupFailure(found: Lookup, error500: string): (r: Response)
    requires !found.Found?
    ensures found.Failed? ==> r.status == 500
    ensures found.NotFound? ==> r == NotFoundResponse
  {
    if found.Failed? then Response(500, ErrorBody(error500)) else NotFoundResponse
  }

  /** `DELETE /api/messages/:id`: the author soft-deletes the record. */
  method SoftDelete(db: Database, authenticated: bool, sessionUser: string, id: MessageId, dbUp: bool)
    returns (res: Response)
    requires db.Valid()
    modifies db
    ensures db.Valid()
    ensures !authenticated ==> res == Unauthorized
    ensures authenticated ==>
      var found := FindById(old(db.records), id, dbUp);
      && (found.Failed? ==> res.status == 500)
      && (found.NotFound? ==> res == NotFoundResponse)
      && (found.Found? && found.msg.username != sessionUser ==> res == Forbidden)
    ensures res.status == 200 <==>
      authenticated && FindById(old(db.records), id, dbUp).Found? && old(db.records)[id].username == sessionUser
    ensures res.status != 200 ==> db.records == old(db.records)
    ensures res.status == 200 ==>
      var scrubbed := Scrub(old(db.records)[id]);
      db.records == old(db.records)[id := scrubbed] && res == Response(200, OkMessage(scrubbed))
  {
    if !authenticated {
      return Unauthorized;
    }
    var found := FindById(db.records, id, dbUp);
    if !found.Found? {
      return LookupFailure(found, "Failed to delete message");
    }
    if found.msg.username != sessionUser {
      return Forbidden;
    }
    var msg := Scrub(found.msg);
    db.records := db.records[id := msg];
    res := Response(200, OkMessage(msg));
  }

  /** `PATCH /api/messages/:id`: the body's text is checked first (missing,
      empty or not a string is 400), then the record must exist (404), belong to
      the caller (403) and not be deleted (400). */
  method EditMessage(db: Database, authenticated: bool, sessionUser: string, id: MessageId, text: Json,
                     dbUp: bool, now: int)
    returns (res: Response)
    requires db.Valid()
    modifies db
    ensures db.Valid()
    ensures !authenticated ==> res == Unauthorized
    ensures authenticated && !(Truthy(text) && text.Str?) ==> res == Response(400, ErrorBody("Invalid text"))
    ensures authenticated && Truthy(text) && text.Str? ==>
      var found := FindById(old(db.records), id, dbUp);
      && (found.Failed? ==> res.status == 500)
      && (found.NotFound? ==> res == NotFoundResponse)
      && (found.Found? && found.msg.username != sessionUser ==> res == Forbidden)
      && (found.Found? && found.msg.username == sessionUser && found.msg.deleted ==>
            res == Response(400, ErrorBody("Cannot edit deleted message")))
    ensures res.status == 200 <==>
      && authenticated && Truthy(text) && text.Str?
      && var found := FindById(old(db.records), id, dbUp);
         found.Found? && found.msg.username == sessionUser && !found.msg.deleted
    ensures res.status != 200 ==> db.records == old(db.records)
    ensures res.status == 200 ==>
      var edited := ApplyEdit(old(db.records)[id], text.s, now);
      db.records == old(db.records)[id := edited] && res == Response(200, OkMessage(edited))
  {
    if !authenticated {
      return Unauthorized;
    }
    if !Truthy(text) || !text.Str? {
      return Response(400, ErrorBody("Invalid text"));
    }
    var found := FindById(db.records, id, dbUp);
    if !found.Found? {
      return LookupFailure(found, "Failed to edit message");
    }
    if found.msg.username != sessionUser {
      return Forbidden;
    }
    if found.msg.deleted {
      return Response(400, ErrorBody("Cannot edit deleted message"));
    }
    var msg := ApplyEdit(found.msg, text.s, now);
    db.records := db.records[id := msg];
    res := Response(200, OkMessage(msg));
  }

  /** `POST /api/messages/:id/like`: any signed-in user toggles their like. */
  method LikeMessage(db: Database, authenticated: bool, sessionUser: string, id: MessageId, dbUp: bool)
    returns (res: Response)
    requires db.Valid()
    modifies db
    ensures db.Valid()
    ensures !authenticated ==> res == Unauthorized
    ensures authenticated ==>
      var found := FindById(old(db.records), id, dbUp);
      && (found.Failed? ==> res.status == 500)
      && (found.NotFound? ==> res == NotFoundResponse)
    ensures res.status == 200 <==> authenticated && FindById(old(db.records), id, dbUp).Found?
    ensures res.status != 200 ==> db.records == old(db.records)
    ensures res.status == 200 ==>
      var likes := ToggleLike(old(db.records)[id].likes, sessionUser);
      db.records == old(db.records)[id := old(db.records)[id].(likes := likes)]
      && res == Response(200, OkLikes(likes))
  {
    if !authenticated {
      return Unauthorized;
    }
    var found := FindById(db.records, id, dbUp);
    if !found.Found? {
      return LookupFailure(found, "Failed to toggle like");
    }
    var likes := ToggleLike(found.msg.likes, sessionUser);
    ToggleLikeFlips(found.msg.likes, sessionUser);
    db.records := db.records[id := found.msg.(likes := likes)];
    res := Response(200, OkLikes(likes));
  }

  /** `DELETE /api/messages/:id/unsend`: the author removes the record for good. */
  method Unsend(db: Database, authenticated: bool, sessionUser: string, id: MessageId, dbUp: bool)
    returns (res: Response)
    requires db.Valid()
    modifies db
    ensures db.Valid()
    ensures !authenticated ==> res == Unauthorized
    ensures authenticated ==>
      var found := FindById(old(db.records), id, dbUp);
      && (found.Failed? ==> res.status == 500)
      && (found.NotFound? ==> res == NotFoundResponse)
      && (found.Found? && found.msg.username != sessionUser ==> res == Forbidden)
    ensures res.status == 200 <==>
      authenticated && FindById(old(db.records), id, dbUp).Found? && old(db.records)[id].username == sessionUser
    ensures res.status != 200 ==> db.records == old(db.records)
    ensures res.status == 200 ==>
      db.records == old(db.records) - {id} && res == Response(200, OkEmpty)
      && FindById(db.records, id, dbUp).NotFound?
  {
    if !authenticated {
      return Unauthorized;
    }
    var found := FindById(db.records, id, dbUp);
    if !found.Found? {
      return LookupFailure(found, "Failed to unsend message");
    }
    if found.msg.username != sessionUser {
      return Forbidden;
    }
    db.records := db.records - {id};
    res := Response(200, OkEmpty);
  }
}
