/** The contact document and the request bodies that describe one. */
module ContactModel {
  import opened Wrappers

  /** A document id, as the client sees it in `_id` and in the URL. */
  type Id = string

  /** A stored contact: four required string fields. The creation and update
      timestamps the schema adds are not modelled. */
  datatype Contact = Contact(name: string, email: string, phone: string, user_id: string)

  /** A contact as it travels in a JSON response: the document and its id. */
  datatype Doc = Doc(id: Id, contact: Contact)

  /** A JSON object describing a contact, where any field may be absent. It is
      both the element of a create body and the body of an update. */
  datatype Fields = Fields(
    name: Option<string>,
    email: Option<string>,
    phone: Option<string>,
    user_id: Option<string>)

  /** The body of a create request: one object, or an array of them. */
  datatype CreateBody = Single(item: Fields) | Many(items: seq<Fields>)

  /** JavaScript truthiness of a string field: present and not empty. */
  predicate Truthy(f: Option<string>)
  {
    f.Some? && f.value != ""
  }

  /** The ids carried by a list of documents. */
  function Ids(docs: seq<Doc>): set<Id>
  {
    set i | 0 <= i < |docs| :: docs[i].id
  }

  /** The ids of a concatenation are the ids of its parts. */
  lemma IdsConcat(a: seq<Doc>, b: seq<Doc>)
    ensures Ids(a + b) == Ids(a) + Ids(b)
  {
    var ab := a + b;
    forall id | id in Ids(ab) ensures id in Ids(a) + Ids(b) {
      var i :| 0 <= i < |ab| && ab[i].id == id;
      if i >= |a| {
        assert b[i - |a|] == ab[i];
      }
    }
    forall id | id in Ids(a) ensures id in Ids(ab) {
      var i :| 0 <= i < |a| && a[i].id == id;
      assert ab[i] == a[i];
    }
    forall id | id in Ids(b) ensures id in Ids(ab) {
      var i :| 0 <= i < |b| && b[i].id == id;
      assert ab[i + |a|] == b[i];
    }
  }

  /** No two documents in the list share an id. */
  predicate DistinctIds(docs: seq<Doc>)
  {
    forall i, j :: 0 <= i < j < |docs| ==> docs[i].id != docs[j].id
  }
}
