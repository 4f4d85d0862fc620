/** The contact dashboard's client-side logic: the search box filter, the
    local removal after a delete, and the normalisation of fetched data. */
module ContactList {
  import opened Wrappers
  import opened Strings
  import opened Filtering
  import opened ContactModel
  import opened ContactController

  /** The search test for one contact: the lower-cased name or e-mail
      includes the lower-cased term, or the phone includes the term as typed. */
  predicate Matches(d: Doc, term: string)
  {
    || Includes(Lower(d.contact.name), Lower(term))
    || Includes(Lower(d.contact.email), Lower(term))
    || Includes(d.contact.phone, term)
  }

  /** The same test stated with substring occurrence instead of the scan. */
  ghost predicate Found(d: Doc, term: string)
  {
    || (exists i :: OccursAt(Lower(d.contact.name), Lower(term), i))
    || (exists i :: OccursAt(Lower(d.contact.email), Lower(term), i))
    || (exists i :: OccursAt(d.contact.phone, term, i))
  }

  /** The contacts shown for a search term: those the term is found in, in
      their original order, each as often as in the input. */
  function Search(contacts: seq<Doc>, term: string): (r: seq<Doc>)
    ensures forall d :: multiset(r)[d] == if Found(d, term) then multiset(contacts)[d] else 0
    ensures forall i :: 0 <= i < |r| ==> Found(r[i], term)
    ensures forall i :: 0 <= i < |contacts| && Found(contacts[i], term) ==> contacts[i] in r
    ensures exists idx :: Embedding(r, contacts, idx)
  {
    FilterIsSubsequence(contacts, d => Matches(d, term));
    Filter(contacts, d => Matches(d, term))
  }

  /** A contact is shown exactly when it is listed and the term is found in it. */
  lemma SearchMembership(contacts: seq<Doc>, term: string, d: Doc)
    ensures d in Search(contacts, term) <==> d in contacts && Found(d, term)
  {
    var r := Search(contacts, term);
    if d in r {
      assert multiset(r)[d] > 0;
    }
  }

  /** An empty search box shows every contact. */
  lemma {:induction false} SearchEmptyTermKeepsAll(contacts: seq<Doc>)
    ensures Search(contacts, "") == contacts
  {
    forall i | 0 <= i < |contacts| ensures Matches(contacts[i], "") {
      IncludesEmpty(contacts[i].contact.phone);
    }
    FilterKeepsAll(contacts, d => Matches(d, ""));
  }

  /** Searching the search result again with the same term changes nothing. */
  lemma SearchIdempotent(contacts: seq<Doc>, term: string)
    ensures Search(Search(contacts, term), term) == Search(contacts, term)
  {
    FilterIdempotent(contacts, d => Matches(d, term));
  }

  /** `contacts.filter((c) => c._id !== id)`: the contacts left on screen after
      deleting `id`, in their original order. */
  function LocalDelete(contacts: seq<Doc>, id: Id): (r: seq<Doc>)
    ensures forall d :: multiset(r)[d] == if d.id != id then multiset(contacts)[d] else 0
    ensures forall i :: 0 <= i < |r| ==> r[i].id != id
    ensures forall i :: 0 <= i < |contacts| && contacts[i].id != id ==> contacts[i] in r
    ensures exists idx :: Embedding(r, contacts, idx)
  {
    FilterIsSubsequence(contacts, (d: Doc) => d.id != id);
    Filter(contacts, (d: Doc) => d.id != id)
  }

  /** `response.data || []`: a missing response body becomes the empty list. */
  function Fetched(data: Option<seq<Doc>>): (r: seq<Doc>)
    ensures data.None? ==> r == []
    ensures data.Some? ==> r == data.value
  {
    data.GetOr([])
  }

  /** The contacts on screen come from a listing, so each one belongs to the
      signed-in user, whatever the search term. */
  lemma SearchShowsOnlyOwnContacts(store: Store, user: string, docs: seq<Doc>, term: string)
    requires Lists(store, user, docs)
    ensures forall i :: 0 <= i < |Search(docs, term)| ==> Search(docs, term)[i].contact.user_id == user
  {
    var r := Search(docs, term);
    forall i | 0 <= i < |r| ensures r[i].contact.user_id == user {
      assert multiset(r)[r[i]] > 0;
      assert r[i] in docs;
      var j :| 0 <= j < |docs| && docs[j] == r[i];
      assert docs[j].id in OwnedIds(store, user);
    }
  }

  /** A subsequence of a list with distinct ids has distinct ids. */
  lemma EmbeddingKeepsDistinctIds(r: seq<Doc>, s: seq<Doc>, idx: seq<int>)
    requires Embedding(r, s, idx) && DistinctIds(s)
    ensures DistinctIds(r)
  {
  }

  /** Local delete keeps only documents of the input. */
  lemma LocalDeleteFromInput(docs: seq<Doc>, id: Id)
    ensures forall i :: 0 <= i < |LocalDelete(docs, id)| ==> LocalDelete(docs, id)[i] in docs
  {
    var r := LocalDelete(docs, id);
    forall i | 0 <= i < |r| ensures r[i] in docs {
      assert multiset(r)[r[i]] > 0;
    }
  }

  /** Local delete drops exactly the deleted id from the ids on screen. */
  lemma LocalDeleteIds(docs: seq<Doc>, id: Id)
    ensures Ids(LocalDelete(docs, id)) == Ids(docs) - {id}
  {
    var r := LocalDelete(docs, id);
    LocalDeleteFromInput(docs, id);
    forall x | x in Ids(r) ensures x in Ids(docs) - {id} {
      var i :| 0 <= i < |r| && r[i].id == x;
      assert r[i] in docs;
    }
    forall x | x in Ids(docs) - {id} ensures x in Ids(r) {
      var j :| 0 <= j < |docs| && docs[j].id == x;
      assert docs[j] in r;
    }
  }

  /** Removing the deleted contact locally gives a valid listing of the store
      the server holds after that delete, so no refetch is needed. */
  lemma LocalDeleteMatchesServer(store: Store, user: string, docs: seq<Doc>, id: Id)
    requires Lists(store, user, docs)
    requires DeleteContact(store, user, id).Ok?
    ensures Lists(DeleteContact(store, user, id).after, user, LocalDelete(docs, id))
  {
    var after := DeleteContact(store, user, id).after;
    var r := LocalDelete(docs, id);
    var idx :| Embedding(r, docs, idx);
    EmbeddingKeepsDistinctIds(r, docs, idx);
    DeleteOwnedIds(store, user, id, user);
    LocalDeleteIds(docs, id);
    assert Ids(r) == OwnedIds(after, user);
    forall i | 0 <= i < |r| ensures r[i].id in after && after[r[i].id] == r[i].contact {
      assert r[i] in docs;
      assert r[i].id != id;
    }
  }
}
