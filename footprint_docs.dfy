/**
 * The documents of the footprint store and the pure operations the router
 * applies to them: author hydration of responses, the field merge of an
 * update, the three operations on a footprint's embedded comment list
 * (append, find by id, remove by id) and the newest-first listing.
 */
module FootprintDocs {
  import opened Wrappers

  type UserId = nat
  type FootprintId = nat
  type CommentId = nat

  /** The authenticated principal (`req.user`): its id and opaque profile fields. */
  datatype User = User(id: UserId, profile: map<string, string>)

  /** A comment as stored, embedded in its footprint. */
  datatype Comment = Comment(id: CommentId, author: UserId, text: string, other: map<string, string>)

  /** A footprint as stored: the author is an id, never a user record. */
  datatype Footprint = Footprint(
    author: UserId,
    fields: map<string, string>,
    comments: seq<Comment>,
    createdAt: nat)

  /** A stored footprint together with the id it is stored under, as `findByIdAndDelete` answers it. */
  datatype StoredFootprint = StoredFootprint(id: FootprintId, footprint: Footprint)

  /** A request body for a footprint: the `author` key the client may have sent, and the other keys. */
  datatype FootprintPayload = FootprintPayload(author: Option<UserId>, fields: map<string, string>)

  /** A request body for a comment. */
  datatype CommentPayload = CommentPayload(author: Option<UserId>, text: string, other: map<string, string>)

  /** A footprint as sent in a response: `author` holds the user record, or None where populating found no user. */
  datatype FootprintView = FootprintView(
    id: FootprintId,
    author: Option<User>,
    fields: map<string, string>,
    comments: seq<Comment>,
    createdAt: nat)

  /** A comment as sent in a response, its author hydrated. */
  datatype CommentView = CommentView(id: CommentId, author: User, text: string, other: map<string, string>)

  // ---------------------------------------------------------------- hydration

  /** Response shaping: the stored footprint with `author` replaced by the given user record. */
  function Hydrate(fid: FootprintId, f: Footprint, author: Option<User>): (v: FootprintView)
    ensures v.id == fid && v.author == author
    ensures v.fields == f.fields && v.comments == f.comments && v.createdAt == f.createdAt
  {
    FootprintView(fid, author, f.fields, f.comments, f.createdAt)
  }

  /** `populate('author')`: hydration by a join against the user directory. */
  function Populate(fid: FootprintId, f: Footprint, directory: map<UserId, User>): (v: FootprintView)
    ensures v.id == fid
    ensures v.author.Some? <==> f.author in directory
    ensures v.author.Some? ==> v.author.value == directory[f.author]
    ensures v.fields == f.fields && v.comments == f.comments && v.createdAt == f.createdAt
  {
    Hydrate(fid, f, Lookup(directory, f.author))
  }

  /** The stored form a response corresponds to: the author's id in place of the user record. */
  function Dehydrate(v: FootprintView): (r: Option<Footprint>)
    ensures r.Some? <==> v.author.Some?
  {
    match v.author
    case None => None
    case Some(u) => Some(Footprint(u.id, v.fields, v.comments, v.createdAt))
  }

  /** Hydration only reshapes the response: stripping the user back to its id gives the stored record. */
  lemma HydrateRoundTrip(fid: FootprintId, f: Footprint, u: User)
    requires u.id == f.author
    ensures Hydrate(fid, f, Some(u)).id == fid
    ensures Hydrate(fid, f, Some(u)).author == Some(u)
    ensures Dehydrate(Hydrate(fid, f, Some(u))) == Some(f)
  {
  }

  /** Response shaping for a comment. */
  function HydrateComment(c: Comment, u: User): (v: CommentView)
    ensures v.author == u
    ensures v.id == c.id && v.text == c.text && v.other == c.other
  {
    CommentView(c.id, u, c.text, c.other)
  }

  function DehydrateComment(v: CommentView): Comment
  {
    Comment(v.id, v.author.id, v.text, v.other)
  }

  lemma HydrateCommentRoundTrip(c: Comment, u: User)
    requires u.id == c.author
    ensures HydrateComment(c, u).author == u
    ensures DehydrateComment(HydrateComment(c, u)) == c
  {
  }

  // ---------------------------------------------------------------- create and update

  /** The document `Footprint.create` stores: the payload's author is overwritten by the caller's id. */
  function NewFootprint(caller: UserId, p: FootprintPayload, now: nat): (f: Footprint)
    ensures f.author == caller
    ensures f.fields == p.fields && f.comments == [] && f.createdAt == now
  {
    Footprint(caller, p.fields, [], now)
  }

  /**
   * `findByIdAndUpdate(id, body)`: every key of the body overwrites the stored
   * one, keys the body does not mention keep their stored value, and an
   * `author` key in the body is written too.
   */
  function Merge(f: Footprint, p: FootprintPayload): (r: Footprint)
    ensures r.fields.Keys == f.fields.Keys + p.fields.Keys
    ensures forall k :: k in p.fields ==> r.fields[k] == p.fields[k]
    ensures forall k :: k in f.fields && k !in p.fields ==> r.fields[k] == f.fields[k]
    ensures p.author.None? ==> r.author == f.author
    ensures p.author.Some? ==> r.author == p.author.value
    ensures r.comments == f.comments && r.createdAt == f.createdAt
  {
    var author := if p.author.Some? then p.author.value else f.author;
    Footprint(author, f.fields + p.fields, f.comments, f.createdAt)
  }

  /** Sending the same update twice stores the same document as sending it once. */
  lemma MergeIdempotent(f: Footprint, p: FootprintPayload)
    ensures Merge(Merge(f, p), p) == Merge(f, p)
  {
  }

  /** An update whose body carries no keys and no author leaves the document as it was. */
  lemma MergeEmpty(f: Footprint)
    ensures Merge(f, FootprintPayload(None, map[])) == f
  {
  }

  /** An update made by the owner with an `author` key moves the footprint to another user. */
  lemma MergeCanReassignAuthor(f: Footprint, fields: map<string, string>, other: UserId)
    requires other != f.author
    ensures Merge(f, FootprintPayload(Some(other), fields)).author != f.author
  {
  }

  // ---------------------------------------------------------------- the embedded comment list

  /** The ids of a comment list are pairwise distinct. */
  ghost predicate DistinctIds(cs: seq<Comment>)
  {
    forall i, j :: 0 <= i < j < |cs| ==> cs[i].id != cs[j].id
  }

  /** Every id of the list is below `bound`, the next id the store will hand out. */
  ghost predicate IdsBelow(cs: seq<Comment>, bound: CommentId)
  {
    forall i :: 0 <= i < |cs| ==> cs[i].id < bound
  }

  /** The comment `comments.push` appends: its author is the caller's, whatever the payload said. */
  function NewComment(cid: CommentId, caller: UserId, p: CommentPayload): (c: Comment)
    ensures c.id == cid && c.author == caller
    ensures c.text == p.text && c.other == p.other
  {
    Comment(cid, caller, p.text, p.other)
  }

  /** Appending a comment with a fresh id keeps the ids distinct and below the advanced bound. */
  lemma AppendKeepsIds(cs: seq<Comment>, c: Comment, bound: CommentId)
    requires DistinctIds(cs) && IdsBelow(cs, bound) && c.id == bound
    ensures DistinctIds(cs + [c]) && IdsBelow(cs + [c], bound + 1)
  {
  }

  /** `comments.id(cid)`: the position of the first comment with that id, None when there is none. */
  function FindComment(cs: seq<Comment>, cid: CommentId): (r: Option<nat>)
    ensures r.Some? ==> r.value < |cs| && cs[r.value].id == cid
    ensures r.Some? ==> forall j :: 0 <= j < r.value ==> cs[j].id != cid
    ensures r.None? <==> forall j :: 0 <= j < |cs| ==> cs[j].id != cid
  {
    if cs == [] then None
    else if cs[0].id == cid then Some(0)
    else match FindComment(cs[1..], cid)
      case None => None
      case Some(k) => Some(k + 1)
  }

  /** In a list with distinct ids, a comment carrying the id is the one found. */
  lemma FindCommentUnique(cs: seq<Comment>, k: nat)
    requires DistinctIds(cs) && k < |cs|
    ensures FindComment(cs, cs[k].id) == Some(k)
  {
  }

  /** Assignment to `comment.text`: only the text of the comment at `k` changes. */
  function SetText(cs: seq<Comment>, k: nat, text: string): (r: seq<Comment>)
    requires k < |cs|
    ensures |r| == |cs|
    ensures r[k].id == cs[k].id && r[k].author == cs[k].author && r[k].other == cs[k].other
    ensures r[k].text == text
    ensures forall j :: 0 <= j < |cs| && j != k ==> r[j] == cs[j]
  {
    cs[k := cs[k].(text := text)]
  }

  /** Editing a text leaves every id where it was. */
  lemma SetTextKeepsIds(cs: seq<Comment>, k: nat, text: string, bound: CommentId)
    requires k < |cs| && DistinctIds(cs) && IdsBelow(cs, bound)
    ensures DistinctIds(SetText(cs, k, text)) && IdsBelow(SetText(cs, k, text), bound)
  {
  }

  /** `comments.remove({_id: cid})`: every comment with that id is dropped, the others kept. */
  function Without(cs: seq<Comment>, cid: CommentId): (r: seq<Comment>)
    ensures |r| <= |cs|
    ensures forall i :: 0 <= i < |r| ==> r[i].id != cid && r[i] in cs
    ensures forall i :: 0 <= i < |cs| && cs[i].id != cid ==> cs[i] in r
  {
    if cs == [] then []
    else if cs[0].id == cid then Without(cs[1..], cid)
    else [cs[0]] + Without(cs[1..], cid)
  }

  /** Removal works piece by piece, so the comments it keeps stay in their order. */
  lemma {:induction false} WithoutConcat(cs: seq<Comment>, ds: seq<Comment>, cid: CommentId)
    ensures Without(cs + ds, cid) == Without(cs, cid) + Without(ds, cid)
  {
    if cs == [] {
      assert cs + ds == ds;
    } else {
      assert (cs + ds)[1..] == cs[1..] + ds;
      WithoutConcat(cs[1..], ds, cid);
    }
  }

  /** Removing an id that is not in the list changes nothing. */
  lemma {:induction false} WithoutAbsent(cs: seq<Comment>, cid: CommentId)
    requires forall i :: 0 <= i < |cs| ==> cs[i].id != cid
    ensures Without(cs, cid) == cs
  {
    if cs != [] {
      WithoutAbsent(cs[1..], cid);
    }
  }

  /** Removal is idempotent: removing the same id again changes nothing. */
  lemma WithoutIdempotent(cs: seq<Comment>, cid: CommentId)
    ensures Without(Without(cs, cid), cid) == Without(cs, cid)
  {
    WithoutAbsent(Without(cs, cid), cid);
  }

  /** In a list with distinct ids, removing the id of the comment at `k` cuts out exactly that comment. */
  lemma {:induction false} WithoutAt(cs: seq<Comment>, k: nat)
    requires DistinctIds(cs) && k < |cs|
    ensures Without(cs, cs[k].id) == cs[..k] + cs[k + 1..]
  {
    var cid := cs[k].id;
    assert cs == cs[..k] + ([cs[k]] + cs[k + 1..]);
    WithoutConcat(cs[..k], [cs[k]] + cs[k + 1..], cid);
    WithoutConcat([cs[k]], cs[k + 1..], cid);
    WithoutAbsent(cs[..k], cid);
    WithoutAbsent(cs[k + 1..], cid);
    assert Without([cs[k]], cid) == [] by {
      assert [cs[k]][1..] == [];
    }
  }

  /** Dropping the first comment keeps the ids distinct and below the bound. */
  lemma TailKeepsIds(cs: seq<Comment>, bound: CommentId)
    requires cs != [] && DistinctIds(cs) && IdsBelow(cs, bound)
    ensures DistinctIds(cs[1..]) && IdsBelow(cs[1..], bound)
    ensures forall j :: 0 <= j < |cs[1..]| ==> cs[1..][j].id != cs[0].id
  {
  }

  /** A comment whose id is below the bound and new to the list can go in front. */
  lemma ConsKeepsIds(c: Comment, rest: seq<Comment>, bound: CommentId)
    requires DistinctIds(rest) && IdsBelow(rest, bound) && c.id < bound
    requires forall i :: 0 <= i < |rest| ==> rest[i].id != c.id
    ensures DistinctIds([c] + rest) && IdsBelow([c] + rest, bound)
  {
  }

  /** Removal brings in no id the list did not have. */
  lemma WithoutAvoids(cs: seq<Comment>, cid: CommentId, x: CommentId)
    requires forall j :: 0 <= j < |cs| ==> cs[j].id != x
    ensures forall i :: 0 <= i < |Without(cs, cid)| ==> Without(cs, cid)[i].id != x
  {
  }

  /** Removal keeps the ids distinct and below the same bound. */
  lemma {:induction false} WithoutKeepsIds(cs: seq<Comment>, cid: CommentId, bound: CommentId)
    requires DistinctIds(cs) && IdsBelow(cs, bound)
    ensures DistinctIds(Without(cs, cid)) && IdsBelow(Without(cs, cid), bound)
  {
    if cs != [] {
      TailKeepsIds(cs, bound);
      WithoutKeepsIds(cs[1..], cid, bound);
      if cs[0].id != cid {
        WithoutAvoids(cs[1..], cid, cs[0].id);
        ConsKeepsIds(cs[0], Without(cs[1..], cid), bound);
      }
    }
  }

  // ---------------------------------------------------------------- newest-first listing

  /** No two stored footprints share a creation time. */
  ghost predicate DistinctDates(m: map<FootprintId, Footprint>)
  {
    forall a, b :: a in m && b in m && a != b ==> m[a].createdAt != m[b].createdAt
  }

  /** `fid` is the most recently created footprint among `keys`. */
  predicate IsNewest(fid: FootprintId, keys: set<FootprintId>, m: map<FootprintId, Footprint>)
    requires keys <= m.Keys
  {
    fid in keys && forall k :: k in keys ==> m[k].createdAt <= m[fid].createdAt
  }

  /** A non-empty set of footprints has a newest one. */
  lemma {:induction false} NewestExists(keys: set<FootprintId>, m: map<FootprintId, Footprint>)
    requires keys <= m.Keys && keys != {}
    ensures exists fid :: IsNewest(fid, keys, m)
    decreases keys
  {
    var x :| x in keys;
    if keys == {x} {
      assert IsNewest(x, keys, m);
    } else {
      NewestExists(keys - {x}, m);
      var y :| IsNewest(y, keys - {x}, m);
      if m[x].createdAt <= m[y].createdAt {
        assert IsNewest(y, keys, m);
      } else {
        assert IsNewest(x, keys, m);
      }
    }
  }

  /** In a store with distinct creation times the newest footprint of a set is unique. */
  lemma NewestUnique(keys: set<FootprintId>, m: map<FootprintId, Footprint>)
    requires keys <= m.Keys && DistinctDates(m)
    ensures forall a, b :: IsNewest(a, keys, m) && IsNewest(b, keys, m) ==> a == b
  {
  }

  /** `r` lists exactly the ids of `keys`, each once. */
  ghost predicate Enumerates(r: seq<FootprintId>, keys: set<FootprintId>)
  {
    && |r| == |keys|
    && (forall i :: 0 <= i < |r| ==> r[i] in keys)
    && (forall k :: k in keys ==> k in r)
  }

  /** Along `r`, creation times strictly decrease. */
  ghost predicate NewestFirstOrder(r: seq<FootprintId>, m: map<FootprintId, Footprint>)
  {
    forall i, j :: 0 <= i < j < |r| && r[i] in m && r[j] in m ==> m[r[i]].createdAt > m[r[j]].createdAt
  }

  /** Putting the newest footprint in front of an ordered listing of the others orders them all. */
  lemma PrependNewest(fid: FootprintId, keys: set<FootprintId>, rest: seq<FootprintId>, m: map<FootprintId, Footprint>)
    requires keys <= m.Keys && DistinctDates(m) && IsNewest(fid, keys, m)
    requires Enumerates(rest, keys - {fid}) && NewestFirstOrder(rest, m)
    ensures Enumerates([fid] + rest, keys) && NewestFirstOrder([fid] + rest, m)
  {
  }

  /** The ids of `keys`, most recently created first. */
  function NewestFirst(keys: set<FootprintId>, m: map<FootprintId, Footprint>): (r: seq<FootprintId>)
    requires keys <= m.Keys && DistinctDates(m)
    ensures Enumerates(r, keys)
    ensures NewestFirstOrder(r, m)
    decreases keys
  {
    if keys == {} then []
    else
      NewestExists(keys, m);
      NewestUnique(keys, m);
      var fid :| IsNewest(fid, keys, m);
      var rest := NewestFirst(keys - {fid}, m);
      PrependNewest(fid, keys, rest, m);
      [fid] + rest
  }

  /** `v` is the populated view of a footprint stored in `m` under `v.id`. */
  ghost predicate ListedAs(v: FootprintView, m: map<FootprintId, Footprint>, directory: map<UserId, User>)
  {
    v.id in m && v == Populate(v.id, m[v.id], directory)
  }

  /** The populated views of the footprints `ids` names, in the same order. */
  function PopulateAll(ids: seq<FootprintId>, m: map<FootprintId, Footprint>, directory: map<UserId, User>)
    : (r: seq<FootprintView>)
    requires forall i :: 0 <= i < |ids| ==> ids[i] in m
    ensures |r| == |ids|
    ensures forall i :: 0 <= i < |r| ==> r[i].id == ids[i] && ListedAs(r[i], m, directory)
  {
    if ids == [] then []
    else [Populate(ids[0], m[ids[0]], directory)] + PopulateAll(ids[1..], m, directory)
  }

  /**
   * `Footprint.find({}).populate('author').sort({createdAt: 'desc'})`: every
   * stored footprint exactly once, author populated, most recent first.
   */
  function Listing(m: map<FootprintId, Footprint>, directory: map<UserId, User>): (r: seq<FootprintView>)
    requires DistinctDates(m)
    ensures |r| == |m|
    ensures forall i :: 0 <= i < |r| ==> ListedAs(r[i], m, directory)
    ensures forall fid :: fid in m ==> exists i :: 0 <= i < |r| && r[i].id == fid
    ensures forall i, j :: 0 <= i < j < |r| ==> r[i].createdAt > r[j].createdAt
  {
    var ids := NewestFirst(m.Keys, m);
    var r := PopulateAll(ids, m, directory);
    assert |m.Keys| == |m|;
    forall i | 0 <= i < |r| ensures r[i].createdAt == m[ids[i]].createdAt {
      assert ListedAs(r[i], m, directory);
    }
    forall fid | fid in m ensures exists i :: 0 <= i < |r| && r[i].id == fid {
      var i :| 0 <= i < |ids| && ids[i] == fid;
      assert r[i].id == fid;
    }
    r
  }

  /** The most recently created footprint heads the listing. */
  lemma NewestListedFirst(m: map<FootprintId, Footprint>, directory: map<UserId, User>, fid: FootprintId)
    requires DistinctDates(m) && fid in m
    requires forall k :: k in m ==> m[k].createdAt <= m[fid].createdAt
    ensures |Listing(m, directory)| > 0 && Listing(m, directory)[0].id == fid
  {
  }
}
