# Footprints router: a verified model

This project models the footprint routes of the globetrotter backend
(`controllers/footprints.js`). A *footprint* is a user-authored record that
carries opaque payload fields, a creation time and an ordered list of
embedded comments. The router exposes eight handlers behind token
authentication:

- list all footprints;
- get one footprint;
- create a footprint;
- append a comment;
- update a footprint;
- edit a comment's text;
- delete a footprint;
- remove a comment.

The model is a small state machine. `FootprintRouter.Store` is a class whose
`footprints: map<FootprintId, Footprint>` field is the collection. It has
counters that hand out fresh footprint ids, fresh comment ids and
`createdAt` times. Each handler is a method that takes the authenticated user
and returns an `Outcome`:

- `Created` is 201;
- `Ok` is 200;
- `Forbidden` is 403;
- `ServerError` is 500, the `catch` block.

The list and get queries are read-only functions. The rules the router
applies around the store are pure functions in `FootprintDocs`:

- author stamping;
- the field merge of an update;
- find, text edit and removal by id on the comment list;
- author hydration of responses, which never touches the stored record;
- the newest-first listing.

Files:

- `wrappers.dfy`: `Option` and map lookup.
- `footprint_docs.dfy`: records, payloads, response views, and the pure operations and their lemmas.
- `footprint_router.dfy`: the `Store` class with its eight handlers, and a walk through the routes.

The store invariant `Store.Valid()` says four things:

- every footprint id is below the footprint counter;
- every creation time is below the clock, and no two are equal;
- every comment id is below the comment counter;
- the comment ids within one footprint are distinct.

Every handler preserves it.

Points where the code's behaviour needs stating:

- A missing footprint id in any mutating handler makes the code dereference
  `null`, and the `catch` answers 500. The model answers `ServerError` and
  leaves the store unchanged. The same holds for editing a comment id that
  is absent. No "not found" outcome exists.
- Get on a missing id answers 200 with `null`, not 404. The model returns
  `Ok(None)`.
- A footprint's author is not fixed at creation: the code passes the whole
  request body to `findByIdAndUpdate`, so an owner's update whose body
  carries an `author` key rewrites the stored author. The model
  follows the code: `Merge` writes a payload author, and
  `MergeCanReassignAuthor` shows that this moves the footprint to another
  user. The update's response still shows the caller as author, because
  line 81 overwrites it after the update.
- Comment edit and comment removal perform no ownership check at all, as in
  the code.
- `populate('author')` on list and get is a join against a `directory` of
  users passed as a parameter. A dangling author gives `None`, as Mongoose
  gives `null`. Create, update and comment append hydrate with the caller's
  own record, as the code does. The delete route returns the stored record,
  its id included, with the author as an id, because it is not populated.
- `comments.id(cid)` yields the first comment with that id.
  `comments.remove({_id: cid})` drops every comment with that id.
- The creation clock is a counter, so creation times are distinct and the
  newest-first order is strict.

## Model

| member | source | states |
|---|---|---|
| Wrappers.Lookup | controllers/footprints.js:69 | A lookup is Some exactly when the id is stored, and then holds the stored record; absence is explicit rather than a null dereference. Every handler loads its footprint through it. |
| FootprintDocs.Hydrate | controllers/footprints.js:40 | The response view carries the given author in place of the stored author id, and keeps the id, fields, comments and creation time of the stored record. |
| FootprintDocs.HydrateComment | controllers/footprints.js:58 | The response comment carries the given user as author, and keeps the comment's id, text and other fields. |
| FootprintDocs.Populate | controllers/footprints.js:28 | The populated view keeps the id, fields, comments and creation time of the stored record; its author is the directory's user record when the author id is in the directory, and None otherwise. |
| FootprintDocs.HydrateRoundTrip | controllers/footprints.js:40 | Hydrating with a user whose id is the stored author changes only the response: replacing the user by its id gives back exactly the stored footprint. |
| FootprintDocs.HydrateCommentRoundTrip | controllers/footprints.js:58 | Hydrating a comment's author with its own user record loses nothing: dehydrating gives back the stored comment. |
| FootprintDocs.NewFootprint | controllers/footprints.js:38-39 | The created document's author is the caller's id, whatever author the payload named; it stores the payload fields, no comments, and the current time. |
| FootprintDocs.Merge | controllers/footprints.js:75-79 | After an update the field keys are the union of stored and payload keys; payload values win; keys the payload does not mention keep their stored values; comments and creation time are untouched; a payload author replaces the stored one, and otherwise the author stays. |
| FootprintDocs.MergeIdempotent | controllers/footprints.js:75-79 | Applying the same update body twice stores the same document as applying it once. |
| FootprintDocs.MergeEmpty | controllers/footprints.js:75-79 | An update body with no keys and no author leaves the document unchanged. |
| FootprintDocs.MergeCanReassignAuthor | controllers/footprints.js:75-79 | An owner's update whose body names another author moves the footprint to that author; the stored author is not immutable. |
| FootprintDocs.NewComment | controllers/footprints.js:51-53 | The pushed comment has the caller as author, whatever author the payload named, plus the given id and the payload's text and other fields. |
| FootprintDocs.AppendKeepsIds | controllers/footprints.js:53 | Appending a comment whose id is the next counter value keeps the list's ids distinct and below the advanced counter. |
| FootprintDocs.FindComment | controllers/footprints.js:93 | The result is the index of the first comment with the id; None exactly when no comment has that id. |
| FootprintDocs.FindCommentUnique | controllers/footprints.js:93 | In a list with distinct ids, looking up the id of the comment at position k finds position k. |
| FootprintDocs.SetText | controllers/footprints.js:94 | Only the targeted comment's text changes, to the new text; its id, author and other fields, and every other comment, are unchanged. |
| FootprintDocs.SetTextKeepsIds | controllers/footprints.js:94-95 | Editing a text keeps the ids distinct and below the counter. |
| FootprintDocs.Without | controllers/footprints.js:122 | No remaining comment has the removed id; every remaining comment was in the list; every comment with a different id remains; the list never grows. |
| FootprintDocs.WithoutConcat | controllers/footprints.js:122 | Removal distributes over concatenation, so the kept comments stay in their original order. |
| FootprintDocs.WithoutAbsent | controllers/footprints.js:122 | Removing an id that no comment carries leaves the list unchanged. |
| FootprintDocs.WithoutIdempotent | controllers/footprints.js:122 | Removing the same id twice gives the same list as removing it once. |
| FootprintDocs.WithoutAt | controllers/footprints.js:122 | With distinct ids, removing the id of the comment at position k gives the list with exactly that position cut out. |
| FootprintDocs.WithoutKeepsIds | controllers/footprints.js:122-123 | Removal keeps the ids distinct and below the counter. |
| FootprintDocs.NewestFirst | controllers/footprints.js:18 | The result lists every key of the set exactly once, with creation times strictly decreasing. |
| FootprintDocs.Listing | controllers/footprints.js:16-18 | The listing holds one populated view per stored footprint and covers all of them, with creation times strictly decreasing. |
| FootprintDocs.NewestListedFirst | controllers/footprints.js:16-18 | The footprint created last heads the listing. |
| FootprintRouter.Store.List | controllers/footprints.js:14-23 | GET / answers 200 with every stored footprint exactly once, author populated, most recent first. |
| FootprintRouter.Store.Get | controllers/footprints.js:26-33 | GET /:id answers 200 with the populated footprint when it is stored, and 200 with null when it is not. |
| FootprintRouter.Store.Create | controllers/footprints.js:36-46 | POST / stores the payload under a fresh id with the caller as author, whatever author the payload named. The new record is the newest, and nothing else changes. It answers 201 with the record hydrated with the caller's user record. |
| FootprintRouter.Store.AppendComment | controllers/footprints.js:49-64 | Any user may comment. On a stored footprint, the list becomes the old list plus the new comment, which carries a fresh id and the caller as author. It answers 201 with that comment hydrated. A missing footprint answers 500 and the store is unchanged. |
| FootprintRouter.Store.Update | controllers/footprints.js:67-87 | A missing footprint answers 500. A caller who is not the stored author gets 403. In both cases the store is unchanged. The owner's update stores the merge of the record and the payload, changes no other footprint, and answers 200 with the caller as author. |
| FootprintRouter.Store.UpdateComment | controllers/footprints.js:90-100 | No ownership check is made. If the footprint or the comment id is missing, it answers 500 and nothing is saved. Otherwise only that comment's text changes, and it answers 200 with the `Ok` message. |
| FootprintRouter.Store.Delete | controllers/footprints.js:103-116 | A missing footprint answers 500. A caller who is not the stored author gets 403. In both cases the store is unchanged. The owner's delete removes exactly that id and answers 200 with that id and the record as it was stored. |
| FootprintRouter.Store.DeleteComment | controllers/footprints.js:119-128 | No ownership check is made. On a stored footprint, every comment with the id is removed and the rest keep their order. It answers 200 with the `Ok` message even when the id is absent. A missing footprint answers 500 with the store unchanged. |
| FootprintRouter.HikeScenario | controllers/footprints.js:36-116 | U1 creates "Hike" while the payload claims U2 as author. U2's update is refused with 403 and the title stays "Hike". U2's comment is accepted with U2 as its author and is the only comment. U1's delete returns the record with U1 as author. Afterwards the footprint is no longer found. |

## Left out

- Express routing, status plumbing and JSON serialisation: outcomes are a datatype (controllers/footprints.js:1-5, 14, 130).
- The `verifyToken` middleware: the authenticated user is a method parameter, and the unauthenticated case never reaches the handlers (controllers/footprints.js:11).
- Store failures other than dereferencing a missing document, such as connection errors and schema validation errors: the model has no such failures, so create always succeeds. The contents of error objects are not modelled.
- `console.log` and the unused `cors` import (controllers/footprints.js:4, 43).
- Mongoose internals: `populate` is a lookup in a user directory parameter, ObjectId `.equals` is equality on `nat` ids, and real timestamps are a monotonic counter.
- Request-body keys other than `author` and opaque string fields: a body carrying `comments`, `_id` or `createdAt` is not modelled for create, update or comment append.
- Concurrency and atomicity of the load-check-write sequences: the model is sequential, one handler call per request, so the two lookups in update and delete always agree.
- FootprintRouter.Store.Update: an update body whose `author` is not a user id (`null`, or an `$unset` of the author) is not modelled. The code passes such a body unchecked to `findByIdAndUpdate`, so the stored author would become null. Every later update or delete of that footprint, the former owner's included, would then fault on `footprint.author.equals` and answer 500.
- FootprintDocs.Listing: creation times come from a strictly increasing counter, so no two footprints share one. Real timestamps can tie at millisecond resolution, and the order of tied footprints is not modelled. The same holds for FootprintDocs.NewestFirst and FootprintDocs.NewestListedFirst.
- FootprintRouter.Store.UpdateComment: the request's `text` is always a string; a body without `text`, which would set the text to undefined, is not modelled.
