/**
  The document database the adapters talk to, reduced to the four requests
  they issue: insert a new document, fetch one by id, destroy one by id and
  revision, and query the `users/by_username` view with the documents
  included. State is a map from id to document; each document carries a
  revision number that every write bumps. The server's id generator and the
  health of the connection are part of the state, so that every request is a
  pure function of it.
 */
module DocStore {
  import opened Json
  import opened Outcomes
  import IdOrder

  datatype Doc = Doc(rev: nat, body: Fields)

  /** Whether requests reach the server; `Down` fails every request. */
  datatype Link = Up | Down(cause: string)

  /** `next` feeds the server's id generator. */
  datatype Db = Db(docs: map<Id, Doc>, next: nat, link: Link)

  /** The store's answer to a write or a delete: `{ok, id, rev}`. */
  datatype WriteAck = WriteAck(ok: bool, id: Id, rev: nat)

  /** One row of a view query with `include_docs`. */
  datatype Row = Row(id: Id, key: Value, doc: Fields)

  /** Fields the store keeps as metadata rather than in the document body. */
  const MetaKeys: set<string> := {"_id", "_rev"}

  const MissingError := "missing"
  const ConflictError := "Document update conflict."

  /** Every stored body is JSON: no field holds `undefined`. */
  predicate Wf(db: Db) {
    forall id :: id in db.docs ==> NoUndefined(db.docs[id].body)
  }

  /** The body the server keeps for a document it is sent: the metadata goes
      to `_id`/`_rev`, and serialisation drops the `undefined` fields. */
  function Body(doc: Fields): (r: Fields)
    ensures forall k :: Field(r, k) == if k in MetaKeys then Undefined else Field(doc, k)
    ensures NoUndefined(r)
  {
    Defined(doc - MetaKeys)
  }

  /** `db.get("")`: the client drops an empty document name from the request
      path, so the answer is the database's information record, which has no
      `_id`. */
  function Info(db: Db): (r: Fields)
    ensures Field(r, "_id") == Undefined && Field(r, "_rev") == Undefined
  {
    map["doc_count" := Num(|db.docs|)]
  }

  /** The id the server assigns to the `n`-th new document. */
  function Uuid(n: nat): Id {
    "u" + Digits(n)
  }

  /** A stored document as a fetch returns it: its body plus `_id`/`_rev`. */
  function Fetched(id: Id, d: Doc): (r: Fields)
    ensures r.Keys == d.body.Keys + MetaKeys
    ensures r["_id"] == Str(id) && r["_rev"] == Num(d.rev)
    ensures forall k :: k in d.body && k !in MetaKeys ==> r[k] == d.body[k]
  {
    d.body["_id" := Str(id)]["_rev" := Num(d.rev)]
  }

  /** `db.insert(doc)` for a document without `_id`: the server picks a fresh
      id, stores revision 1 and answers `{ok: true, id, rev}`. */
  function Insert(db: Db, doc: Fields): (r: Step<Db, WriteAck>)
    ensures !r.out.Throws?
    ensures r.out.Resolves? <==> db.link.Up? && Uuid(db.next) !in db.docs
    ensures r.out.Resolves? ==>
      && r.out.value == WriteAck(true, Uuid(db.next), 1)
      && r.state == db.(docs := db.docs[Uuid(db.next) := Doc(1, Body(doc))], next := db.next + 1)
    ensures r.out.Rejects? ==> r.state == db
  {
    if db.link.Down? then Step(db, Rejects(db.link.cause))
    else
      var id := Uuid(db.next);
      if id in db.docs then Step(db, Rejects(ConflictError))
      else Step(db.(docs := db.docs[id := Doc(1, Body(doc))], next := db.next + 1),
                Resolves(WriteAck(true, id, 1)))
  }

  /** `db.get(id)`: the document with its metadata, or an error; for the
      empty id, the database's information record. */
  function Get(db: Db, id: Id): (r: Step<Db, Fields>)
    ensures r.state == db && !r.out.Throws?
    ensures r.out.Resolves? <==> db.link.Up? && (id == "" || id in db.docs)
    ensures r.out.Resolves? && id == "" ==> r.out.value == Info(db)
    ensures r.out.Resolves? && id != "" ==> r.out.value == Fetched(id, db.docs[id])
  {
    if db.link.Down? then Step(db, Rejects(db.link.cause))
    else if id == "" then Step(db, Resolves(Info(db)))
    else if id !in db.docs then Step(db, Rejects(MissingError))
    else Step(db, Resolves(Fetched(id, db.docs[id])))
  }

  /** `db.insert(doc)` for a document carrying `_id` and `_rev`: overwrites
      the stored document when the revision is current. */
  function Put(db: Db, id: Id, rev: Value, doc: Fields): (r: Step<Db, WriteAck>)
    ensures !r.out.Throws?
    ensures r.out.Resolves? <==> db.link.Up? && id in db.docs && rev == Num(db.docs[id].rev)
    ensures r.out.Resolves? ==>
      && r.out.value == WriteAck(true, id, db.docs[id].rev + 1)
      && r.state == db.(docs := db.docs[id := Doc(db.docs[id].rev + 1, Body(doc))])
    ensures r.out.Rejects? ==> r.state == db
  {
    if db.link.Down? then Step(db, Rejects(db.link.cause))
    else if id !in db.docs then Step(db, Rejects(MissingError))
    else if rev != Num(db.docs[id].rev) then Step(db, Rejects(ConflictError))
    else
      var next := db.docs[id].rev + 1;
      Step(db.(docs := db.docs[id := Doc(next, Body(doc))]), Resolves(WriteAck(true, id, next)))
  }

  /** `db.destroy(id, rev)`: deletes the document when the revision is
      current and answers `{ok: true, id, rev}`. */
  function Destroy(db: Db, id: Id, rev: Value): (r: Step<Db, WriteAck>)
    ensures !r.out.Throws?
    ensures r.out.Resolves? <==> db.link.Up? && id in db.docs && rev == Num(db.docs[id].rev)
    ensures r.out.Resolves? ==>
      && r.out.value == WriteAck(true, id, db.docs[id].rev + 1)
      && r.state == db.(docs := db.docs - {id})
    ensures r.out.Rejects? ==> r.state == db
  {
    if db.link.Down? then Step(db, Rejects(db.link.cause))
    else if id !in db.docs then Step(db, Rejects(MissingError))
    else if rev != Num(db.docs[id].rev) then Step(db, Rejects(ConflictError))
    else Step(db.(docs := db.docs - {id}), Resolves(WriteAck(true, id, db.docs[id].rev + 1)))
  }

  /** The three writes keep every stored body free of `undefined`. */
  lemma WritesPreserveWf(db: Db, doc: Fields, id: Id, rev: Value)
    requires Wf(db)
    ensures Wf(Insert(db, doc).state)
    ensures Wf(Put(db, id, rev, doc).state)
    ensures Wf(Destroy(db, id, rev).state)
  {
  }

  /** The map function of the `users/by_username` design document: user
      documents, keyed by their `username`. */
  predicate UserNamed(d: Doc, key: Value) {
    Field(d.body, "Type") == Str("user") && Field(d.body, "username") == key
  }

  /** Ids of the documents the view lists under `key`. */
  function UsersNamed(db: Db, key: Value): (r: set<Id>)
    ensures forall id :: id in r <==> id in db.docs && UserNamed(db.docs[id], key)
  {
    set id | id in db.docs && UserNamed(db.docs[id], key)
  }

  /** `db.view('users', 'by_username', {key, include_docs: true})`: one row
      per matching document, ordered by document id. */
  function ViewByUsername(db: Db, key: Value): (r: Step<Db, seq<Row>>)
    ensures r.state == db && !r.out.Throws?
    ensures r.out.Resolves? <==> db.link.Up?
    ensures r.out.Resolves? ==>
      var rows := r.out.value;
      && |rows| == |UsersNamed(db, key)|
      && (forall i :: 0 <= i < |rows| ==>
            rows[i].id in UsersNamed(db, key) && rows[i].key == key
            && rows[i].doc == Fetched(rows[i].id, db.docs[rows[i].id]))
      && (forall i, j :: 0 <= i < j < |rows| ==> IdOrder.LexLe(rows[i].id, rows[j].id) && rows[i].id != rows[j].id)
      && (|rows| != 0 ==> rows[0].id == IdOrder.Least(UsersNamed(db, key)))
  {
    if db.link.Down? then Step(db, Rejects(db.link.cause))
    else
      var ids := IdOrder.InOrder(UsersNamed(db, key));
      var rows := seq(|ids|, i requires 0 <= i < |ids| => Row(ids[i], key, Fetched(ids[i], db.docs[ids[i]])));
      Step(db, Resolves(rows))
  }
}
