/**
 * The footprint router: one method per route handler over an in-memory
 * footprint store. The authenticated user arrives as a parameter; each handler
 * answers with an Outcome (201, 200, 403 or 500). A handler that dereferences
 * a missing document ends in the catch block, which is ServerError here, with
 * nothing saved.
 */
module FootprintRouter {
  import opened Wrappers
  import opened FootprintDocs

  /** What a handler answers: 201 with a body, 200 with a body, 403, or 500. */
  datatype Outcome<T> = Created(value: T) | Ok(value: T) | Forbidden | ServerError

  /** The `{ message: 'Ok' }` acknowledgement of the comment edit and removal routes. */
  datatype Ack = Message(text: string)

  const OkAck := Message("Ok")

  /** The footprint collection, with the counters that hand out ids and creation times. */
  class Store {
    var footprints: map<FootprintId, Footprint>
    var nextFootprintId: FootprintId
    var nextCommentId: CommentId
    var clock: nat

    /** Ids and creation times come from the counters, so they are fresh, and comment ids are unique. */
    ghost predicate Valid()
      reads this
    {
      && (forall fid :: fid in footprints ==> fid < nextFootprintId && footprints[fid].createdAt < clock)
      && (forall fid :: fid in footprints ==> DistinctIds(footprints[fid].comments))
      && (forall fid :: fid in footprints ==> IdsBelow(footprints[fid].comments, nextCommentId))
      && DistinctDates(footprints)
    }

    constructor ()
      ensures Valid()
      ensures footprints == map[]
    {
      footprints := map[];
      nextFootprintId, nextCommentId, clock := 0, 0, 0;
    }

    /** GET /: every footprint, author populated, newest first. */
    function List(directory: map<UserId, User>): (o: Outcome<seq<FootprintView>>)
      reads this
      requires Valid()
      ensures o.Ok?
      ensures |o.value| == |footprints|
      ensures forall i :: 0 <= i < |o.value| ==> ListedAs(o.value[i], footprints, directory)
      ensures forall fid :: fid in footprints ==> exists i :: 0 <= i < |o.value| && o.value[i].id == fid
      ensures forall i, j :: 0 <= i < j < |o.value| ==> o.value[i].createdAt > o.value[j].createdAt
    {
      Ok(Listing(footprints, directory))
    }

    /** GET /:footprintId: the footprint with its author populated, or 200 with null when there is none. */
    function Get(fid: FootprintId, directory: map<UserId, User>): (o: Outcome<Option<FootprintView>>)
      reads this
      ensures o.Ok?
      ensures o.value.Some? <==> fid in footprints
      ensures o.value.Some? ==> o.value.value == Populate(fid, footprints[fid], directory)
    {
      match Lookup(footprints, fid)
      case None => Ok(None)
      case Some(f) => Ok(Some(Populate(fid, f, directory)))
    }

    /** POST /: stores the payload under a fresh id with the caller as author; answers with the author hydrated. */
    method Create(user: User, payload: FootprintPayload) returns (o: Outcome<FootprintView>)
      requires Valid()
      modifies this
      ensures Valid()
      ensures o.Created?
      ensures o.value.id == old(nextFootprintId) && o.value.id !in old(footprints)
      ensures footprints == old(footprints)[o.value.id := NewFootprint(user.id, payload, old(clock))]
      ensures footprints[o.value.id].author == user.id
      ensures forall k :: k in footprints ==> footprints[k].createdAt <= footprints[o.value.id].createdAt
      ensures o.value == Hydrate(o.value.id, footprints[o.value.id], Some(user))
      ensures nextFootprintId == old(nextFootprintId) + 1 && clock == old(clock) + 1
      ensures nextCommentId == old(nextCommentId)
    {
      var fid := nextFootprintId;
      var f := NewFootprint(user.id, payload, clock);
      footprints := footprints[fid := f];
      nextFootprintId := nextFootprintId + 1;
      clock := clock + 1;
      o := Created(Hydrate(fid, f, Some(user)));
    }

    /**
     * POST /:footprintId/comments: any user may comment. The comment gets a
     * fresh id and the caller as author and goes at the end of the list; the
     * answer is that last comment with its author hydrated.
     */
    method AppendComment(user: User, fid: FootprintId, payload: CommentPayload) returns (o: Outcome<CommentView>)
      requires Valid()
      modifies this
      ensures Valid()
      ensures nextFootprintId == old(nextFootprintId) && clock == old(clock)
      ensures fid !in old(footprints) ==>
        o == ServerError && footprints == old(footprints) && nextCommentId == old(nextCommentId)
      ensures fid in old(footprints) ==>
        var before := old(footprints)[fid];
        var c := NewComment(old(nextCommentId), user.id, payload);
        && (forall i :: 0 <= i < |before.comments| ==> before.comments[i].id != c.id)
        && footprints == old(footprints)[fid := before.(comments := before.comments + [c])]
        && o == Created(HydrateComment(c, user))
        && nextCommentId == old(nextCommentId) + 1
    {
      var loaded := Lookup(footprints, fid);
      if loaded.None? {
        return ServerError;
      }
      var f := loaded.value;
      var c := NewComment(nextCommentId, user.id, payload);
      AppendKeepsIds(f.comments, c, nextCommentId);
      footprints := footprints[fid := f.(comments := f.comments + [c])];
      nextCommentId := nextCommentId + 1;
      var comments := footprints[fid].comments;
      o := Created(HydrateComment(comments[|comments| - 1], user));
    }

    /**
     * PUT /:footprintId: only the stored author may update. The payload's keys
     * overwrite the stored ones (an `author` key included); the answer carries
     * the caller as author.
     */
    method Update(user: User, fid: FootprintId, payload: FootprintPayload) returns (o: Outcome<FootprintView>)
      requires Valid()
      modifies this
      ensures Valid()
      ensures nextFootprintId == old(nextFootprintId) && nextCommentId == old(nextCommentId) && clock == old(clock)
      ensures fid !in old(footprints) ==> o == ServerError && footprints == old(footprints)
      ensures fid in old(footprints) && old(footprints)[fid].author != user.id ==>
        o == Forbidden && footprints == old(footprints)
      ensures fid in old(footprints) && old(footprints)[fid].author == user.id ==>
        && footprints == old(footprints)[fid := Merge(old(footprints)[fid], payload)]
        && o == Ok(Hydrate(fid, footprints[fid], Some(user)))
    {
      var loaded := Lookup(footprints, fid);
      if loaded.None? {
        return ServerError;
      }
      if loaded.value.author != user.id {
        return Forbidden;
      }
      var updated := Merge(loaded.value, payload);
      footprints := footprints[fid := updated];
      o := Ok(Hydrate(fid, updated, Some(user)));
    }

    /**
     * PUT /:footprintId/comments/:commentId: any user may edit any comment;
     * only the text of the first comment with that id changes. A missing
     * footprint or comment is a 500 and nothing is saved.
     */
    method UpdateComment(user: User, fid: FootprintId, cid: CommentId, text: string) returns (o: Outcome<Ack>)
      requires Valid()
      modifies this
      ensures Valid()
      ensures nextFootprintId == old(nextFootprintId) && nextCommentId == old(nextCommentId) && clock == old(clock)
      ensures fid !in old(footprints) ==> o == ServerError && footprints == old(footprints)
      ensures fid in old(footprints) && FindComment(old(footprints)[fid].comments, cid).None? ==>
        o == ServerError && footprints == old(footprints)
      ensures fid in old(footprints) && FindComment(old(footprints)[fid].comments, cid).Some? ==>
        var before := old(footprints)[fid];
        var k := FindComment(before.comments, cid).value;
        && footprints == old(footprints)[fid := before.(comments := SetText(before.comments, k, text))]
        && o == Ok(OkAck)
    {
      var loaded := Lookup(footprints, fid);
      if loaded.None? {
        return ServerError;
      }
      var f := loaded.value;
      var found := FindComment(f.comments, cid);
      if found.None? {
        return ServerError;
      }
      SetTextKeepsIds(f.comments, found.value, text, nextCommentId);
      footprints := footprints[fid := f.(comments := SetText(f.comments, found.value, text))];
      o := Ok(OkAck);
    }

    /** DELETE /:footprintId: only the stored author may delete; the answer is the record as it was stored. */
    method Delete(user: User, fid: FootprintId) returns (o: Outcome<StoredFootprint>)
      requires Valid()
      modifies this
      ensures Valid()
      ensures nextFootprintId == old(nextFootprintId) && nextCommentId == old(nextCommentId) && clock == old(clock)
      ensures fid !in old(footprints) ==> o == ServerError && footprints == old(footprints)
      ensures fid in old(footprints) && old(footprints)[fid].author != user.id ==>
        o == Forbidden && footprints == old(footprints)
      ensures fid in old(footprints) && old(footprints)[fid].author == user.id ==>
        && footprints == old(footprints) - {fid}
        && o == Ok(StoredFootprint(fid, old(footprints)[fid]))
    {
      var loaded := Lookup(footprints, fid);
      if loaded.None? {
        return ServerError;
      }
      var f := loaded.value;
      if f.author != user.id {
        return Forbidden;
      }
      footprints := footprints - {fid};
      o := Ok(StoredFootprint(fid, f));
    }

    /**
     * DELETE /:footprintId/comments/:commentId: any user may remove any
     * comment; every comment with that id goes, the rest keep their order,
     * and an absent id still answers 200.
     */
    method DeleteComment(user: User, fid: FootprintId, cid: CommentId) returns (o: Outcome<Ack>)
      requires Valid()
      modifies this
      ensures Valid()
      ensures nextFootprintId == old(nextFootprintId) && nextCommentId == old(nextCommentId) && clock == old(clock)
      ensures fid !in old(footprints) ==> o == ServerError && footprints == old(footprints)
      ensures fid in old(footprints) ==>
        var before := old(footprints)[fid];
        && footprints == old(footprints)[fid := before.(comments := Without(before.comments, cid))]
        && o == Ok(OkAck)
    {
      var loaded := Lookup(footprints, fid);
      if loaded.None? {
        return ServerError;
      }
      var f := loaded.value;
      WithoutKeepsIds(f.comments, cid, nextCommentId);
      footprints := footprints[fid := f.(comments := Without(f.comments, cid))];
      o := Ok(OkAck);
    }
  }

  /**
   * A walk through the routes: U1 creates a footprint titled "Hike" while
   * claiming U2 as author, U2's update is refused, U2's comment is accepted
   * and U2 is its author, U1 deletes the footprint, and it is then gone.
   */
  method HikeScenario(u1: User, u2: User, directory: map<UserId, User>)
    returns (put: Outcome<FootprintView>, reply: Outcome<CommentView>, del: Outcome<StoredFootprint>,
             after: Outcome<Option<FootprintView>>)
    requires u1.id != u2.id
    ensures put == Forbidden
    ensures reply.Created? && reply.value.author == u2 && reply.value.text == "nice"
    ensures del.Ok? && del.value.footprint.author == u1.id
    ensures "title" in del.value.footprint.fields && del.value.footprint.fields["title"] == "Hike"
    ensures |del.value.footprint.comments| == 1 && del.value.footprint.comments[0].author == u2.id
    ensures after == Ok(None)
  {
    var store := new Store();
    var created := store.Create(u1, FootprintPayload(Some(u2.id), map["title" := "Hike"]));
    var fid := created.value.id;
    NewestListedFirst(store.footprints, directory, fid);
    assert store.List(directory).value[0].id == fid;
    put := store.Update(u2, fid, FootprintPayload(None, map["title" := "Hike2"]));
    reply := store.AppendComment(u2, fid, CommentPayload(Some(u1.id), "nice", map[]));
    del := store.Delete(u1, fid);
    after := store.Get(fid, directory);
  }
}
