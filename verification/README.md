# Contact manager: store transitions and client-side filtering

A Dafny model of the two pieces of logic in a small contact-management web
application (an Express/Mongoose REST API with a React client):

- **the contact handlers** of `backend/controllers/contactController.js`. The
  contact collection is an immutable map from document id to a `Contact`
  record. The record has the four required string fields of
  `backend/models/contactModel.js`: `name`, `email`, `phone` and `user_id`.
  Each handler takes the store, the authenticated requester's id and the
  request arguments. It answers with a `Reply`: a status code, plus a payload
  on success, and always the store after the request.
- **the dashboard's pure logic** in `frontend/src/components/ContactList.js`.
  This covers the search filter, the local removal of a deleted contact, and
  turning a missing response body into the empty list.

Modules:

| file | module | what it holds |
|---|---|---|
| `wrappers.dfy` | `Wrappers` | `Option`, for absent JSON fields and a missing response body |
| `strings.dfy` | `Strings` | ASCII `toLowerCase` and `includes`, with `includes` proved equal to "occurs at some position" |
| `filtering.dfy` | `Filtering` | `Array.prototype.filter` on sequences: exact contents, order (an index embedding), idempotence |
| `contact_model.dfy` | `ContactModel` | the contact document, request bodies, id sets |
| `contact_controller.dfy` | `ContactController` | the five handlers and the properties relating them |
| `contact_list.dfy` | `ContactList` | search, local delete, fetch normalisation, and how they relate to the server's listing |

Modelling choices:

- **Requester.** `req.user.id` is a parameter. The authentication middleware
  that sets it is not part of this model.
- **Fresh ids.** Mongo's generated `_id`s are a parameter `newIds` of
  `CreateContacts`. They are required to be pairwise distinct and unused.
- **Listing order.** The collection is a map, which has no order. So the
  listing is a method that scans the keys, and its contract is the
  predicate `Lists`: every owned contact appears exactly once, as stored, and
  nothing else appears. The order is left open, as the database's natural
  order is.
- **Request fields.** Fields in a request body are `Option<string>`. A
  missing field is `None`. The handler's `!contact.name` test becomes
  `!Truthy(...)`: absent or the empty string.

Two behaviours of the code are modelled as written:

- The owner is not fixed after creation. `updateContact` passes the whole
  request body, `user_id` included, to `findByIdAndUpdate`, so an owner can
  hand a contact to another user (`UpdateCanReassignOwner`). Ownership is
  kept only when the body names no other owner (`UpdateKeepsOwnership`).
- Reading by id does no owner check: `getContact` only tests that the id
  exists (`GetIgnoresRequester`).

## Model

| member | source | states |
|---|---|---|
| ContactController.GetContacts | backend/controllers/contactController.js:7-10 | the answer is 200 with the store unchanged, listing each contact whose `user_id` is the requester exactly once, as stored, and no other contact |
| ContactController.ListingsAreDisjoint | backend/controllers/contactController.js:8 | listings for two different users share no contact and no id |
| ContactController.Insert | backend/controllers/contactController.js:34 | inserting documents with distinct ids adds exactly their ids, stores each under its id, and keeps every other entry |
| ContactController.CreateContacts | backend/controllers/contactController.js:15-37 | fails with 400 and an unchanged store exactly when some record of the batch lacks a truthy name, email or phone; otherwise answers 201 with one created document per record, in order, under the new ids, with the record's fields and the requester as owner; the store gains exactly those documents and keeps every old entry |
| ContactController.CreateSingleIsBatchOfOne | backend/controllers/contactController.js:19-21 | a single object body gives the same reply and store as an array holding only that object |
| ContactController.CreateIgnoresClientOwner | backend/controllers/contactController.js:29-30 | two batches that differ only in the client-sent `user_id` give identical replies and stores |
| ContactController.CreateThenGet | backend/controllers/contactController.js:34-36 | after a successful create, reading any new id, by any user, returns the document create returned for it |
| ContactController.CreateListings | backend/controllers/contactController.js:30-34 | after a successful create, the creator's old listing followed by the created documents is a listing of the new store, and every other user's old listing is still a listing |
| ContactController.GetContact | backend/controllers/contactController.js:43-50 | 404 exactly when the id is absent, otherwise 200 with the stored contact; the store never changes |
| ContactController.GetIgnoresRequester | backend/controllers/contactController.js:43-50 | reading by id gives every requester the same reply: there is no ownership check |
| ContactController.UpdateContact | backend/controllers/contactController.js:55-75 | 404 exactly when the id is absent; 403 exactly when it is present and owned by someone else; on either error the store is unchanged; otherwise 200, only that entry changes, and each of its fields takes the body's value when given and keeps the old value when not |
| ContactController.UpdateThenGet | backend/controllers/contactController.js:67-74 | after a successful update, reading the id by any user returns the contact the update returned |
| ContactController.UpdateEmptyBodyKeepsStore | backend/controllers/contactController.js:67-72 | an owner's update with an empty body answers 200 with the stored contact and leaves the store as it was |
| ContactController.UpdateCanReassignOwner | backend/controllers/contactController.js:67-72 | an owner whose body sets `user_id` to another user succeeds, and the contact moves from the owner's set of owned ids to the other user's |
| ContactController.UpdateKeepsOwnership | backend/controllers/contactController.js:62-72 | a successful update whose body names no owner, or names the requester, leaves every user's set of owned ids unchanged |
| ContactController.DeleteContact | backend/controllers/contactController.js:80-94 | 404 exactly when the id is absent; 403 exactly when it is present and owned by someone else; on either error the store is unchanged; otherwise 200 returning that id, with exactly that id removed and every other entry kept |
| ContactController.DeleteThenGone | backend/controllers/contactController.js:92-93 | after a successful delete, reading the id gives 404 and deleting it again gives 404, for any user |
| ContactController.DeleteOwnedIds | backend/controllers/contactController.js:92 | a delete removes the id from the owner's set of owned ids and changes no other user's set |
| Strings.Lower | frontend/src/components/ContactList.js:40-41 | `toLowerCase` keeps the length, leaves no upper-case ASCII letter, moves each upper-case letter to its lower-case partner and keeps every other character |
| Strings.LowerIdempotent | frontend/src/components/ContactList.js:40-41 | lower-casing an already lower-cased string changes nothing |
| Strings.Includes | frontend/src/components/ContactList.js:40-42 | the `includes` scan answers true exactly when the term occurs in the string at some position |
| Filtering.Filter | frontend/src/components/ContactList.js:38-43 | the filter keeps each accepted value exactly as often as the input holds it, and no rejected value; every kept element is accepted and every accepted element is kept |
| Filtering.FilterIsSubsequence | frontend/src/components/ContactList.js:38-43 | the kept elements sit at strictly increasing positions of the input, so their relative order is preserved |
| Filtering.FilterIdempotent | frontend/src/components/ContactList.js:38-43 | filtering twice with the same predicate is filtering once |
| ContactList.Search | frontend/src/components/ContactList.js:37-44 | the shown contacts are those where the lower-cased term occurs in the lower-cased name or e-mail, or the raw term occurs in the phone; each kept contact appears as often as in the input, in the same relative order |
| ContactList.SearchMembership | frontend/src/components/ContactList.js:38-43 | a contact is shown if and only if it is in the list and the term is found in it |
| ContactList.SearchEmptyTermKeepsAll | frontend/src/components/ContactList.js:38-43 | an empty search term shows the whole list, unchanged |
| ContactList.SearchIdempotent | frontend/src/components/ContactList.js:37-44 | searching the shown contacts again with the same term changes nothing |
| ContactList.LocalDelete | frontend/src/components/ContactList.js:63 | removes exactly the contacts with the deleted `_id`, keeps every other contact as often as before, in the same relative order |
| ContactList.LocalDeleteIds | frontend/src/components/ContactList.js:63 | the ids left on screen are the previous ids minus the deleted one |
| ContactList.LocalDeleteMatchesServer | frontend/src/components/ContactList.js:58-69 | if the list was a listing of the server's store and the server's delete succeeded, the locally filtered list is a listing of the store after that delete, so no refetch is needed |
| ContactList.SearchShowsOnlyOwnContacts | frontend/src/components/ContactList.js:48-55 | when the fetched list is the server's listing for a user, every contact any search shows is owned by that user |
| ContactList.Fetched | frontend/src/components/ContactList.js:51 | a missing response body becomes the empty list; a present one is used as given |

## Left out

- Authentication: the JWT middleware that sets `req.user`, the user
  controller, registration and login are not part of this model. The
  requester id is a trusted input.
- Process wiring: `backend/server.js` (Express, CORS, JSON parsing, error
  handler, listening) and `backend/config/dbConnection.js` (connecting to the
  database, exiting on failure) are I/O and bootstrapping.
- Database internals are abstracted as map operations. This covers ObjectId
  generation (a parameter) and the `createdAt`/`updatedAt` timestamps (not
  modelled). It also covers `insertMany` failing part-way on a driver error
  and cast errors for a malformed id. In those cases the exception goes to
  the application's error handler, which is not modelled, and the model
  treats every id as well formed.
- Concurrency: each handler is one atomic transition. Another request may
  delete the contact between `findById` and `findByIdAndUpdate`; in the
  source the update then answers 200 with `null`. That race is not modelled.
- JSON values other than strings or absence: `null` fields, numbers, and a
  `null` element in a create array (a `TypeError` whose exception goes to
  the application's error handler, which is not modelled). Update
  body fields outside the schema are also left out, since the schema drops
  them.
- ContactList.Search: lower-casing covers ASCII letters only, and strings are
  sequences of Dafny characters rather than UTF-16 code units. Full Unicode
  `toLowerCase` is not modelled.
- The React side of `ContactList.js`: state hooks, effects, the confirmation
  dialog, navigation, logging and the order in which asynchronous calls
  complete. `frontend/src/App.js`, `Login.js`, `Register.js`, `ContactForm.js`
  and the axios wrappers in `frontend/src/services/` are UI and network
  plumbing.
