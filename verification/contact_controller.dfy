/** The contact handlers of the REST API as transitions of an abstract store.
    Every handler takes the store, the id of the authenticated requester and
    the request's arguments, and answers with a status code and the store
    after the request. Fresh document ids are supplied by the caller. */
module ContactController {
  import opened Wrappers
  import opened ContactModel

  /** The contact collection: document id to document. */
  type Store = map<Id, Contact>

  const OK: int := 200
  const CREATED: int := 201
  const BAD_REQUEST: int := 400
  const FORBIDDEN: int := 403
  const NOT_FOUND: int := 404

  /** A handler's answer. A failure carries no payload, only its status. */
  datatype Reply<T> = Ok(status: int, value: T, after: Store) | Err(status: int, after: Store)

  // ---------------------------------------------------------------------------
  // Listing
  // ---------------------------------------------------------------------------

  /** The ids of the contacts whose owner is `user`. */
  ghost function OwnedIds(store: Store, user: string): set<Id>
  {
    set id | id in store && store[id].user_id == user
  }

  /** `docs` lists, each once and as stored, exactly the contacts `user` owns.
      The order of the list is not fixed. */
  ghost predicate Lists(store: Store, user: string, docs: seq<Doc>)
  {
    && DistinctIds(docs)
    && (forall i :: 0 <= i < |docs| ==> docs[i].id in store && store[docs[i].id] == docs[i].contact)
    && Ids(docs) == OwnedIds(store, user)
  }

  /** GET /api/contacts: a scan of the collection for the requester's contacts. */
  method GetContacts(store: Store, requester: string) returns (r: Reply<seq<Doc>>)
    ensures r.Ok? && r.status == OK && r.after == store
    ensures Lists(store, requester, r.value)
    ensures forall i :: 0 <= i < |r.value| ==> r.value[i].contact.user_id == requester
  {
    var pending := store.Keys;
    var docs: seq<Doc> := [];
    while pending != {}
      invariant pending <= store.Keys
      invariant DistinctIds(docs)
      invariant forall i :: 0 <= i < |docs| ==> docs[i].id in store && store[docs[i].id] == docs[i].contact
      invariant Ids(docs) == OwnedIds(store, requester) - pending
      decreases |pending|
    {
      var id :| id in pending;
      if store[id].user_id == requester {
        var one := [Doc(id, store[id])];
        IdsConcat(docs, one);
        assert Ids(one) == {id} by {
          assert one[0].id == id;
        }
        docs := docs + one;
      } else {
        assert id !in OwnedIds(store, requester);
      }
      pending := pending - {id};
    }
    forall i | 0 <= i < |docs| ensures docs[i].contact.user_id == requester {
      assert docs[i].id in Ids(docs);
    }
    r := Ok(OK, docs, store);
  }

  /** Two different users never see a contact in common. */
  lemma ListingsAreDisjoint(store: Store, a: string, b: string, da: seq<Doc>, db: seq<Doc>)
    requires a != b && Lists(store, a, da) && Lists(store, b, db)
    ensures Ids(da) !! Ids(db)
    ensures forall i, j :: 0 <= i < |da| && 0 <= j < |db| ==> da[i] != db[j]
  {
    forall i, j | 0 <= i < |da| && 0 <= j < |db| ensures da[i] != db[j] {
      assert da[i].id in OwnedIds(store, a);
      assert db[j].id in OwnedIds(store, b);
    }
  }

  // ---------------------------------------------------------------------------
  // Create
  // ---------------------------------------------------------------------------

  /** The records a create body stands for: a single object is a batch of one. */
  function Batch(body: CreateBody): seq<Fields>
  {
    match body
    case Single(f) => [f]
    case Many(fs) => fs
  }

  /** The validation each record must pass: name, email and phone truthy. */
  predicate Complete(f: Fields)
  {
    Truthy(f.name) && Truthy(f.email) && Truthy(f.phone)
  }

  /** The document stored for a validated record; the owner is the requester,
      whatever `user_id` the record carried. */
  function Stamp(f: Fields, owner: string): Contact
    requires Complete(f)
  {
    Contact(f.name.value, f.email.value, f.phone.value, owner)
  }

  /** The ids are pairwise distinct and none of them is in use. */
  predicate FreshFor(store: Store, newIds: seq<Id>)
  {
    && (forall i, j :: 0 <= i < j < |newIds| ==> newIds[i] != newIds[j])
    && (forall i :: 0 <= i < |newIds| ==> newIds[i] !in store)
  }

  /** Adds the documents to the store, one after another. */
  function Insert(store: Store, docs: seq<Doc>): (r: Store)
    requires DistinctIds(docs)
    ensures r.Keys == store.Keys + Ids(docs)
    ensures forall id :: id in store && id !in Ids(docs) ==> r[id] == store[id]
    ensures forall i :: 0 <= i < |docs| ==> r[docs[i].id] == docs[i].contact
    decreases |docs|
  {
    if |docs| == 0 then store
    else
      var rest := docs[1..];
      assert Ids(docs) == {docs[0].id} + Ids(rest) by {
        assert forall i :: 1 <= i < |docs| ==> docs[i] == rest[i - 1];
        assert forall i :: 0 <= i < |rest| ==> rest[i] == docs[i + 1];
      }
      assert docs[0].id !in Ids(rest) by {
        assert forall i :: 0 <= i < |rest| ==> rest[i] == docs[i + 1];
      }
      assert forall i :: 1 <= i < |docs| ==> docs[i] == rest[i - 1];
      Insert(store[docs[0].id := docs[0].contact], rest)
  }

  /** POST /api/contacts: validate every record, then insert all of them. */
  function CreateContacts(store: Store, requester: string, body: CreateBody, newIds: seq<Id>): (r: Reply<seq<Doc>>)
    requires |newIds| == |Batch(body)| && FreshFor(store, newIds)
    ensures r.Err? <==> exists k :: 0 <= k < |Batch(body)| && !Complete(Batch(body)[k])
    ensures r.Err? ==> r.status == BAD_REQUEST && r.after == store
    ensures r.Ok? ==> r.status == CREATED && |r.value| == |newIds|
    ensures r.Ok? ==> forall k :: 0 <= k < |r.value| ==>
      && r.value[k].id == newIds[k]
      && r.value[k].contact.user_id == requester
      && Batch(body)[k].name == Some(r.value[k].contact.name)
      && Batch(body)[k].email == Some(r.value[k].contact.email)
      && Batch(body)[k].phone == Some(r.value[k].contact.phone)
    ensures r.Ok? ==> r.after.Keys == store.Keys + Ids(r.value)
    ensures r.Ok? ==> forall id :: id in store ==> id in r.after && r.after[id] == store[id]
    ensures r.Ok? ==> forall k :: 0 <= k < |r.value| ==> r.after[newIds[k]] == r.value[k].contact
  {
    var batch := Batch(body);
    if exists k :: 0 <= k < |batch| && !Complete(batch[k]) then
      Err(BAD_REQUEST, store)
    else
      var docs := seq(|batch|, k requires 0 <= k < |batch| => Doc(newIds[k], Stamp(batch[k], requester)));
      assert forall id :: id in store ==> id !in Ids(docs);
      Ok(CREATED, docs, Insert(store, docs))
  }

  /** A single object body behaves exactly as an array holding that object. */
  lemma CreateSingleIsBatchOfOne(store: Store, requester: string, f: Fields, newIds: seq<Id>)
    requires |newIds| == 1 && FreshFor(store, newIds)
    ensures CreateContacts(store, requester, Single(f), newIds) == CreateContacts(store, requester, Many([f]), newIds)
  {
  }

  /** The `user_id` a client puts in a create body has no effect. */
  lemma CreateIgnoresClientOwner(store: Store, requester: string, fs: seq<Fields>, gs: seq<Fields>, newIds: seq<Id>)
    requires |fs| == |gs| == |newIds| && FreshFor(store, newIds)
    requires forall k :: 0 <= k < |fs| ==> fs[k].name == gs[k].name && fs[k].email == gs[k].email && fs[k].phone == gs[k].phone
    ensures CreateContacts(store, requester, Many(fs), newIds) == CreateContacts(store, requester, Many(gs), newIds)
  {
    var r := CreateContacts(store, requester, Many(fs), newIds);
    var q := CreateContacts(store, requester, Many(gs), newIds);
    assert r.Err? <==> q.Err? by {
      assert forall k :: 0 <= k < |fs| ==> (Complete(fs[k]) <==> Complete(gs[k]));
    }
    if r.Ok? {
      assert r.value == q.value;
    }
  }

  /** Every created contact can be read back by id, by any requester. */
  lemma CreateThenGet(store: Store, requester: string, body: CreateBody, newIds: seq<Id>, reader: string, k: int)
    requires |newIds| == |Batch(body)| && FreshFor(store, newIds)
    requires CreateContacts(store, requester, body, newIds).Ok? && 0 <= k < |newIds|
    ensures var r := CreateContacts(store, requester, body, newIds);
      GetContact(r.after, reader, newIds[k]) == Ok(OK, r.value[k].contact, r.after)
  {
  }

  /** Inserting documents owned by `owner` under unused ids adds their ids
      to the owner's set of owned ids and to no other user's. */
  lemma InsertOwnedIds(store: Store, created: seq<Doc>, owner: string, user: string)
    requires DistinctIds(created)
    requires forall i :: 0 <= i < |created| ==> created[i].id !in store && created[i].contact.user_id == owner
    ensures OwnedIds(Insert(store, created), user)
         == if user == owner then OwnedIds(store, user) + Ids(created) else OwnedIds(store, user)
  {
    var after := Insert(store, created);
    forall id | id in Ids(created) ensures id in after && after[id].user_id == owner {
      var i :| 0 <= i < |created| && created[i].id == id;
    }
  }

  /** Documents already stored and documents under unused ids never share an id. */
  lemma ConcatDistinctIds(store: Store, docs: seq<Doc>, created: seq<Doc>)
    requires DistinctIds(docs) && DistinctIds(created)
    requires forall i :: 0 <= i < |docs| ==> docs[i].id in store
    requires forall i :: 0 <= i < |created| ==> created[i].id !in store
    ensures DistinctIds(docs + created)
  {
    var all := docs + created;
    forall i, j | 0 <= i < j < |all| ensures all[i].id != all[j].id {
      if j >= |docs| {
        assert all[j] == created[j - |docs|];
        if i >= |docs| {
          assert all[i] == created[i - |docs|];
        } else {
          assert all[i] == docs[i];
        }
      }
    }
  }

  /** A create by one user leaves every other user's listing as it was, and
      the creator's listing grows by exactly the created documents. */
  lemma CreateListings(store: Store, requester: string, body: CreateBody, newIds: seq<Id>, user: string, docs: seq<Doc>)
    requires |newIds| == |Batch(body)| && FreshFor(store, newIds)
    requires CreateContacts(store, requester, body, newIds).Ok?
    requires Lists(store, user, docs)
    ensures var r := CreateContacts(store, requester, body, newIds);
      if user == requester then Lists(r.after, user, docs + r.value) else Lists(r.after, user, docs)
  {
    var r := CreateContacts(store, requester, body, newIds);
    var created := r.value;
    assert r.after == Insert(store, created);
    assert DistinctIds(created);
    InsertOwnedIds(store, created, requester, user);
    if user == requester {
      var all := docs + created;
      IdsConcat(docs, created);
      ConcatDistinctIds(store, docs, created);
      forall i | 0 <= i < |all| ensures all[i].id in r.after && r.after[all[i].id] == all[i].contact {
        if i >= |docs| {
          assert all[i] == created[i - |docs|];
        } else {
          assert all[i] == docs[i];
        }
      }
    }
  }

  // ---------------------------------------------------------------------------
  // Get by id
  // ---------------------------------------------------------------------------

  /** GET /api/contacts/:id: the stored contact, or 404. The requester is not
      consulted: any authenticated user may read any contact by id. */
  function GetContact(store: Store, requester: string, id: Id): (r: Reply<Contact>)
    ensures r.after == store
    ensures r.Err? <==> id !in store
    ensures r.Err? ==> r.status == NOT_FOUND
    ensures r.Ok? ==> r.status == OK && r.value == store[id]
  {
    if id !in store then Err(NOT_FOUND, store) else Ok(OK, store[id], store)
  }

  /** Reading by id gives every requester the same answer, owner or not. */
  lemma GetIgnoresRequester(store: Store, a: string, b: string, id: Id)
    ensures GetContact(store, a, id) == GetContact(store, b, id)
  {
  }

  // ---------------------------------------------------------------------------
  // Update
  // ---------------------------------------------------------------------------

  /** The update body applied to a contact, field by field. `user_id` is one
      of the fields the body may set. */
  function Apply(c: Contact, patch: Fields): Contact
  {
    Contact(
      patch.name.GetOr(c.name),
      patch.email.GetOr(c.email),
      patch.phone.GetOr(c.phone),
      patch.user_id.GetOr(c.user_id))
  }

  /** PUT /api/contacts/:id: 404 when the id is unknown, otherwise 403 when
      the requester is not the owner, otherwise the body's fields overwrite
      the stored ones and the updated contact is returned. */
  function UpdateContact(store: Store, requester: string, id: Id, patch: Fields): (r: Reply<Contact>)
    ensures r.status == NOT_FOUND <==> id !in store
    ensures r.status == FORBIDDEN <==> id in store && store[id].user_id != requester
    ensures r.Ok? <==> id in store && store[id].user_id == requester
    ensures r.Err? ==> r.after == store
    ensures r.Ok? ==> r.status == OK
    ensures r.Ok? ==> r.after.Keys == store.Keys && r.after[id] == r.value
    ensures r.Ok? ==> forall other :: other in store && other != id ==> r.after[other] == store[other]
    ensures r.Ok? ==> && r.value.name == patch.name.GetOr(store[id].name)
                      && r.value.email == patch.email.GetOr(store[id].email)
                      && r.value.phone == patch.phone.GetOr(store[id].phone)
                      && r.value.user_id == patch.user_id.GetOr(store[id].user_id)
  {
    if id !in store then Err(NOT_FOUND, store)
    else if store[id].user_id != requester then Err(FORBIDDEN, store)
    else
      var updated := Apply(store[id], patch);
      Ok(OK, updated, store[id := updated])
  }

  /** After a successful update, reading the id gives the updated contact. */
  lemma UpdateThenGet(store: Store, requester: string, id: Id, patch: Fields, reader: string)
    requires UpdateContact(store, requester, id, patch).Ok?
    ensures var r := UpdateContact(store, requester, id, patch);
      GetContact(r.after, reader, id) == Ok(OK, r.value, r.after)
  {
  }

  /** An update with an empty body leaves the store as it was. */
  lemma UpdateEmptyBodyKeepsStore(store: Store, requester: string, id: Id)
    requires id in store && store[id].user_id == requester
    ensures UpdateContact(store, requester, id, Fields(None, None, None, None)) == Ok(OK, store[id], store)
  {
  }

  /** The owner can hand a contact to another user: the body's `user_id` is
      written like any other field, so the contact leaves the requester's
      listing and enters the other user's. */
  lemma UpdateCanReassignOwner(store: Store, requester: string, id: Id, other: string)
    requires id in store && store[id].user_id == requester && other != requester
    ensures var r := UpdateContact(store, requester, id, Fields(None, None, None, Some(other)));
      && r.Ok?
      && id !in OwnedIds(r.after, requester)
      && id in OwnedIds(r.after, other)
  {
  }

  /** A successful update whose body does not name a different owner keeps
      every user's set of owned contacts. */
  lemma UpdateKeepsOwnership(store: Store, requester: string, id: Id, patch: Fields, user: string)
    requires UpdateContact(store, requester, id, patch).Ok?
    requires patch.user_id.None? || patch.user_id == Some(requester)
    ensures OwnedIds(UpdateContact(store, requester, id, patch).after, user) == OwnedIds(store, user)
  {
  }

  // ---------------------------------------------------------------------------
  // Delete
  // ---------------------------------------------------------------------------

  /** DELETE /api/contacts/:id: 404 when the id is unknown, otherwise 403
      when the requester is not the owner, otherwise the contact is removed
      and its id returned. */
  function DeleteContact(store: Store, requester: string, id: Id): (r: Reply<Id>)
    ensures r.status == NOT_FOUND <==> id !in store
    ensures r.status == FORBIDDEN <==> id in store && store[id].user_id != requester
    ensures r.Ok? <==> id in store && store[id].user_id == requester
    ensures r.Err? ==> r.after == store
    ensures r.Ok? ==> r.status == OK && r.value == id
    ensures r.Ok? ==> r.after.Keys == store.Keys - {id}
    ensures r.Ok? ==> forall other :: other in r.after ==> r.after[other] == store[other]
  {
    if id !in store then Err(NOT_FOUND, store)
    else if store[id].user_id != requester then Err(FORBIDDEN, store)
    else Ok(OK, id, store - {id})
  }

  /** Once deleted, a contact reads as 404 and deletes as 404. */
  lemma DeleteThenGone(store: Store, requester: string, id: Id, anyone: string)
    requires DeleteContact(store, requester, id).Ok?
    ensures var after := DeleteContact(store, requester, id).after;
      && GetContact(after, anyone, id).status == NOT_FOUND
      && DeleteContact(after, anyone, id) == Err(NOT_FOUND, after)
  {
  }

  /** A delete removes the contact from its owner's listing and from no other. */
  lemma DeleteOwnedIds(store: Store, requester: string, id: Id, user: string)
    requires DeleteContact(store, requester, id).Ok?
    ensures var after := DeleteContact(store, requester, id).after;
      OwnedIds(after, user) == if user == requester then OwnedIds(store, user) - {id} else OwnedIds(store, user)
  {
  }
}
