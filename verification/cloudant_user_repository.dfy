/**
  `CloudantUserStorageAdapter`: the user repository over the document store.
  On the way out a user's record is tagged with `Type: "user"` so that users
  and bolos can share one database; on the way back `userTransform` renames
  the store's `_id` to `id` and strips `_id`, `_rev` and `Type`.

  Every operation takes the database state and returns the state it leaves
  together with how the call ended (see `Outcomes`).
 */
module CloudantUserRepository {
  import opened Json
  import opened Outcomes
  import opened Entities
  import DocStore
  import IdOrder

  /** The document-type tag of user documents. */
  const DocType := "user"

  /** Fields that belong to the store, not to the entity. */
  const StoreKeys: set<string> := {"_id", "_rev", "Type"}

  const InsertError := "Problem adding user"
  const GetByIdPrefix := "Failed to get user by id: "
  const GetByUsernameError := "Failed to get user by username"
  const RemovePrefix := "Failed to delete user: "
  const NullIdError := "id cannot be null or undefined"

  /** `String(obj)` for a plain object, as `new Error(data)` renders it. */
  const ObjectText := "[object Object]"

  /** The outbound mapping: the entity's record plus the type tag. */
  function Tagged(data: Fields): Fields {
    data["Type" := Str(DocType)]
  }

  /** `userTransform`: the inbound mapping from a fetched document to an
      entity record. */
  function UserTransform(data: Fields): (r: Fields)
    ensures r.Keys == (data.Keys - StoreKeys) + {"id"}
    ensures r["id"] == Field(data, "_id")
    ensures forall k :: k in data && k !in StoreKeys && k != "id" ==> r[k] == data[k]
  {
    (data - StoreKeys)["id" := Field(data, "_id")]
  }

  /** Read after store: storing a record under `id` and transforming the
      fetched document back gives the record with `id` set to the assigned
      id and nothing else changed, save the `undefined` fields the store
      does not keep. */
  lemma TransformInvertsTagging(data: Fields, id: Id, rev: nat)
    requires data.Keys !! StoreKeys
    ensures UserTransform(DocStore.Fetched(id, DocStore.Doc(rev, DocStore.Body(Tagged(data)))))
            == Defined(data)["id" := Str(id)]
  {
    var fetched := DocStore.Fetched(id, DocStore.Doc(rev, DocStore.Body(Tagged(data))));
    var back := UserTransform(fetched);
    var want := Defined(data)["id" := Str(id)];
    forall k | k in back
      ensures k in want && back[k] == want[k]
    {
      if k != "id" {
        assert Field(fetched, k) == Field(data, k);
      }
    }
    forall k | k in want
      ensures k in back
    {
      if k != "id" {
        assert Field(fetched, k) == Field(data, k);
      }
    }
  }

  /** Store after read: tagging the entity record a user document reads
      back as gives the document's body again, up to the `id` the read
      adds. */
  lemma TaggingInvertsTransform(id: Id, d: DocStore.Doc)
    requires Field(d.body, "Type") == Str(DocType) && d.body.Keys !! DocStore.MetaKeys
    ensures Tagged(UserTransform(DocStore.Fetched(id, d))) - {"id"} == d.body - {"id"}
  {
    var back := Tagged(UserTransform(DocStore.Fetched(id, d))) - {"id"};
    forall k | k in back
      ensures k in d.body && back[k] == d.body[k]
    {
    }
    forall k | k in d.body && k != "id"
      ensures k in back
    {
    }
  }

  /** The answer to `db.insert` turned into the inserted user: `Type`
      deleted, `id` set from the answer, and a rejection when `ok` is false. */
  function FinishInsert(doc: Fields, ack: DocStore.WriteAck): (r: Outcome<User>)
    ensures !r.Throws?
    ensures r.Rejects? <==> !ack.ok
    ensures r.Rejects? ==> r.reason == InsertError
    ensures r.Resolves? ==>
      && r.value.data.Keys == (doc.Keys - {"Type"}) + {"id"}
      && r.value.data["id"] == Str(ack.id)
      && forall k :: k in doc && k != "Type" && k != "id" ==> r.value.data[k] == doc[k]
  {
    if !ack.ok then Rejects(InsertError)
    else Resolves(User((doc - {"Type"})["id" := Str(ack.id)]))
  }

  /** `insert(user)`. */
  function Insert(db: DocStore.Db, u: User): (r: Step<DocStore.Db, User>)
    ensures !r.out.Throws?
    ensures r.out.Resolves? <==> db.link.Up? && DocStore.Uuid(db.next) !in db.docs
    ensures r.out.Resolves? ==>
      var id := DocStore.Uuid(db.next);
      && r.out.value == User(NewUser(u.data).data["id" := Str(id)])
      && r.state.docs.Keys == db.docs.Keys + {id}
      && r.state.docs[id] == DocStore.Doc(1, DocStore.Body(Tagged(NewUser(u.data).data)))
      && Field(r.state.docs[id].body, "Type") == Str(DocType)
      && (forall other :: other in db.docs ==> r.state.docs[other] == db.docs[other])
    ensures r.out.Rejects? ==> r.state == db
  {
    var newuser := NewUser(u.data);
    var doc := Tagged(newuser.data);
    var w := DocStore.Insert(db, doc);
    if w.out.Resolves? then
      assert "Type" !in newuser.data && doc - {"Type"} == newuser.data;
      Step(w.state, FinishInsert(doc, w.out.value))
    else Step(w.state, Rejects(w.out.reason))
  }

  /** The success handler of `getById` applied to whatever `db.get` gave. */
  function FromFetched(data: Fields): (r: Outcome<User>)
    ensures !r.Throws?
    ensures r.Resolves? <==> Truthy(Field(data, "_id"))
    ensures r.Rejects? ==> r.reason == GetByIdPrefix + ErrorString(ObjectText)
    ensures r.Resolves? ==>
      && r.value.data.Keys == UserKeys
      && r.value.data["id"] == data["_id"]
      && forall k :: k in UserKeys && k != "id" ==> r.value.data[k] == (if k in data then data[k] else Null)
  {
    if !Truthy(Field(data, "_id")) then Rejects(GetByIdPrefix + ErrorString(ObjectText))
    else Resolves(NewUser(UserTransform(data)))
  }

  /** The entity a stored document reads back as: its recognised fields,
      with `id` taken from the store's identity. */
  function EntityOf(id: Id, d: DocStore.Doc): (u: User)
    ensures u.data.Keys == UserKeys
    ensures u.data["id"] == Str(id)
    ensures forall k :: k in UserKeys && k != "id" ==> u.data[k] == (if k in d.body then d.body[k] else Null)
  {
    NewUser(UserTransform(DocStore.Fetched(id, d)))
  }

  /** `getById(id)`. */
  function GetById(db: DocStore.Db, id: Id): (r: Step<DocStore.Db, User>)
    ensures r.state == db && !r.out.Throws?
    ensures r.out.Resolves? <==> db.link.Up? && id in db.docs && id != ""
    ensures r.out.Rejects? ==> GetByIdPrefix <= r.out.reason
    ensures r.out.Resolves? ==> r.out.value == EntityOf(id, db.docs[id])
    ensures id == "" && db.link.Up? ==> r.out == Rejects(GetByIdPrefix + ErrorString(ObjectText))
  {
    var g := DocStore.Get(db, id);
    if g.out.Resolves? then Step(g.state, FromFetched(g.out.value))
    else Step(g.state, Rejects(GetByIdPrefix + ErrorString(g.out.reason)))
  }

  /** `getByUsername(name)`: the first row of the `by_username` view, or
      `null` when it has none. */
  function GetByUsername(db: DocStore.Db, key: Value): (r: Step<DocStore.Db, Option<User>>)
    ensures r.state == db && !r.out.Throws?
    ensures r.out.Rejects? <==> db.link.Down?
    ensures r.out.Rejects? ==> r.out.reason == GetByUsernameError
    ensures r.out == Resolves(None) <==> db.link.Up? && DocStore.UsersNamed(db, key) == {}
    ensures r.out.Resolves? && r.out.value.Some? ==>
      var id := IdOrder.Least(DocStore.UsersNamed(db, key));
      && r.out.value.value == EntityOf(id, db.docs[id])
      && (key != Undefined ==> r.out.value.value.data["username"] == key)
  {
    var v := DocStore.ViewByUsername(db, key);
    if !v.out.Resolves? then Step(v.state, Rejects(GetByUsernameError))
    else if |v.out.value| == 0 then Step(v.state, Resolves(None))
    else
      var row := v.out.value[0];
      assert row.id == IdOrder.Least(DocStore.UsersNamed(db, key)) && row.id in db.docs;
      assert row.doc == DocStore.Fetched(row.id, db.docs[row.id]);
      var u := NewUser(UserTransform(row.doc));
      assert u == EntityOf(row.id, db.docs[row.id]);
      Step(v.state, Resolves(Some(u)))
  }

  /** JavaScript truthiness of an optional id (`null`/`undefined` are `None`). */
  predicate Present(id: Option<Id>) {
    id.Some? && id.value != ""
  }

  /** `remove(id)`: refuses a falsy id before touching the store, then reads
      the current revision and deletes by id and revision. */
  function Remove(db: DocStore.Db, id: Option<Id>): (r: Step<DocStore.Db, DocStore.WriteAck>)
    ensures !Present(id) ==> r == Step(db, Throws(NullIdError))
    ensures Present(id) ==> !r.out.Throws?
    ensures Present(id) ==> (r.out.Resolves? <==> db.link.Up? && id.value in db.docs)
    ensures r.out.Resolves? ==>
      && r.out.value.ok && r.out.value.id == id.value
      && r.state == db.(docs := db.docs - {id.value})
    ensures r.out.Rejects? ==> r.state == db && RemovePrefix <= r.out.reason
  {
    if !Present(id) then Step(db, Throws(NullIdError))
    else
      var g := DocStore.Get(db, id.value);
      if !g.out.Resolves? then Step(g.state, Rejects(RemovePrefix + ErrorString(g.out.reason)))
      else
        var doc := g.out.value;
        var d := DocStore.Destroy(g.state, doc["_id"].s, Field(doc, "_rev"));
        match d.out
        case Resolves(_) => d
        case Rejects(e) => Step(d.state, Rejects(RemovePrefix + ErrorString(e)))
        case Throws(e) => Step(d.state, Rejects(RemovePrefix + ErrorString(e)))
  }

  const UpdatePrefix := "Failed to update user: "

  /** `update(user)`, which the adapter does not define although the user
      service calls it: read the current revision of the user's document,
      then write the user's record back under it, the id carried by `_id`
      alone. */
  function Update(db: DocStore.Db, u: User): (r: Step<DocStore.Db, User>)
    ensures !Field(u.data, "id").Str? ==> r == Step(db, Throws(NullIdError))
    ensures r.out.Resolves? <==>
      Field(u.data, "id").Str? && Field(u.data, "id").s != "" && db.link.Up? && Field(u.data, "id").s in db.docs
    ensures r.out.Resolves? ==>
      var id := Field(u.data, "id").s;
      && r.out.value == u
      && r.state == db.(docs := db.docs[id := DocStore.Doc(db.docs[id].rev + 1, DocStore.Body(Tagged(NewUser(u.data).data - {"id"})))])
    ensures r.out.Rejects? ==> r.state == db && UpdatePrefix <= r.out.reason
  {
    var target := Field(u.data, "id");
    if !target.Str? then Step(db, Throws(NullIdError))
    else
      var id := target.s;
      var g := DocStore.Get(db, id);
      if !g.out.Resolves? then Step(g.state, Rejects(UpdatePrefix + ErrorString(g.out.reason)))
      else
        var body := Tagged(NewUser(u.data).data - {"id"});
        var p := DocStore.Put(g.state, id, Field(g.out.value, "_rev"), body);
        match p.out
        case Resolves(_) => Step(p.state, Resolves(u))
        case Rejects(e) => Step(p.state, Rejects(UpdatePrefix + ErrorString(e)))
        case Throws(e) => Step(p.state, Rejects(UpdatePrefix + ErrorString(e)))
  }

  /** A document stored from a user's record, with or without its `id`
      key, reads back as that record after the trip through the store, with
      `id` set to the document's id. */
  lemma EntityOfStored(body: Fields, data: Fields, id: Id, rev: nat)
    requires body == DocStore.Body(Tagged(data)) || body == DocStore.Body(Tagged(data - {"id"}))
    ensures EntityOf(id, DocStore.Doc(rev, body)) == Persisted(User(data["id" := Str(id)]))
  {
    var got := EntityOf(id, DocStore.Doc(rev, body));
    var want := Persisted(User(data["id" := Str(id)]));
    forall k | k in UserKeys
      ensures got.data[k] == want.data[k]
    {
      if k != "id" {
        assert k !in DocStore.MetaKeys && k != "Type";
        assert Field(body, k) == Field(data, k);
        assert k in body <==> Field(body, k) != Undefined;
        assert got.data[k] == if k in body then body[k] else Null;
        assert want.data[k] == if Field(data, k) == Undefined then Null else data[k];
      }
    }
  }

  /** Reading a user back after a successful update gives the written user
      as the store keeps it. */
  lemma UpdateThenGetById(db: DocStore.Db, u: User)
    requires Update(db, u).out.Resolves?
    ensures GetById(Update(db, u).state, Field(u.data, "id").s).out == Resolves(Persisted(u))
  {
    var id := Field(u.data, "id").s;
    var rec := NewUser(u.data).data;
    var after := Update(db, u).state;
    assert after.docs[id] == DocStore.Doc(db.docs[id].rev + 1, DocStore.Body(Tagged(rec - {"id"})));
    EntityOfStored(DocStore.Body(Tagged(rec - {"id"})), rec, id, db.docs[id].rev + 1);
    assert rec["id"] == Str(id);
    assert rec["id" := Str(id)] == rec;
    PersistedOfNew(u);
  }

  /** Insert changes nothing but the id: a user already over the recognised
      keys comes back differing from the input exactly in `id`. */
  lemma InsertChangesOnlyId(db: DocStore.Db, u: User)
    requires db.link.Up? && DocStore.Uuid(db.next) !in db.docs
    requires u.data.Keys == UserKeys
    requires Field(u.data, "id") != Str(DocStore.Uuid(db.next))
    ensures Insert(db, u).out.Resolves?
    ensures UserDiff(u, Insert(db, u).out.value) == {"id"}
  {
    ProjectIdentity(u.data, UserKeys);
    DiffAfterSet(u.data, "id", Str(DocStore.Uuid(db.next)));
  }

  /** Reading a user back by the id insert assigned gives the user insert
      returned as the store keeps it; exactly that user when the input had
      no `undefined` field. */
  lemma InsertThenGetById(db: DocStore.Db, u: User)
    requires db.link.Up? && DocStore.Uuid(db.next) !in db.docs
    ensures var ins := Insert(db, u);
      && ins.out.Resolves?
      && GetById(ins.state, DocStore.Uuid(db.next)).out == Resolves(Persisted(ins.out.value))
      && (NoUndefined(u.data) ==> GetById(ins.state, DocStore.Uuid(db.next)).out == ins.out)
  {
    var id := DocStore.Uuid(db.next);
    assert id != "";
    var rec := NewUser(u.data).data;
    EntityOfStored(DocStore.Body(Tagged(rec)), rec, id, 1);
    if NoUndefined(u.data) {
      assert NoUndefined(rec["id" := Str(id)]);
      PersistedIdentity(User(rec["id" := Str(id)]));
    }
  }

  /** Removing the user insert just created restores the documents exactly,
      and the acknowledgement echoes `ok` and the id. */
  lemma InsertThenRemove(db: DocStore.Db, u: User)
    requires db.link.Up? && DocStore.Uuid(db.next) !in db.docs
    ensures var id := DocStore.Uuid(db.next);
      var rm := Remove(Insert(db, u).state, Some(id));
      && rm.out.Resolves? && rm.out.value.ok && rm.out.value.id == id
      && rm.state.docs == db.docs
  {
    var id := DocStore.Uuid(db.next);
    var ins := Insert(db, u);
    assert id != "";
    assert ins.state.docs - {id} == db.docs;
  }

  /** After insert, the view lists under the new user's name the new
      document in addition to what it listed before, and under every other
      key exactly what it listed before. */
  lemma InsertNamesOnlyNewDoc(db: DocStore.Db, u: User, key: Value)
    requires db.link.Up? && DocStore.Uuid(db.next) !in db.docs
    ensures DocStore.UsersNamed(Insert(db, u).state, key) ==
      DocStore.UsersNamed(db, key) + (if key == Field(NewUser(u.data).data, "username") then {DocStore.Uuid(db.next)} else {})
  {
    var id := DocStore.Uuid(db.next);
    var after := Insert(db, u).state;
    forall x | x in after.docs && x != id
      ensures DocStore.UserNamed(after.docs[x], key) == DocStore.UserNamed(db.docs[x], key)
    {
      assert x in db.docs && after.docs[x] == db.docs[x];
    }
    assert DocStore.UserNamed(after.docs[id], key) <==> key == Field(NewUser(u.data).data, "username");
  }

  /** A username nobody has yet is found, after insert, as the inserted
      user as the store keeps it. */
  lemma InsertThenGetByUsername(db: DocStore.Db, u: User)
    requires db.link.Up? && DocStore.Uuid(db.next) !in db.docs
    requires DocStore.UsersNamed(db, Field(NewUser(u.data).data, "username")) == {}
    ensures var ins := Insert(db, u);
      && ins.out.Resolves?
      && GetByUsername(ins.state, Field(NewUser(u.data).data, "username")).out
         == Resolves(Some(Persisted(ins.out.value)))
  {
    var id := DocStore.Uuid(db.next);
    var name := Field(NewUser(u.data).data, "username");
    InsertNamesOnlyNewDoc(db, u, name);
    assert IdOrder.Least({id}) == id;
    var rec := NewUser(u.data).data;
    EntityOfStored(DocStore.Body(Tagged(rec)), rec, id, 1);
  }
}
