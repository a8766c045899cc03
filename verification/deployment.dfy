/**
  The user service wired to the Cloudant user adapter, and what follows for
  whole requests against one database.

  The adapter defines `insert`, `getById`, `getByUsername` and `remove` only.
  The service also calls `update` (from `resetPassword`) and `getAll` (from
  `getUsers`); on the adapter as written those properties are `undefined`,
  so the calls throw a `TypeError`. `CloudantUsersAsWritten` is that port;
  `CloudantUsers` adds the missing `update`.
 */
module Deployment {
  import opened Json
  import opened Outcomes
  import opened Entities
  import opened Ports
  import DocStore
  import IdOrder
  import Repo = CloudantUserRepository
  import UserService

  const UpdateMissing := "context.userRepository.update is not a function"
  const GetAllMissing := "this.userRepository.getAll is not a function"

  /** The adapter exactly as it is: no `update`, no `getAll`. */
  const CloudantUsersAsWritten: UserRepo<DocStore.Db> := UserRepo(
    (db, id) => Repo.GetById(db, id),
    (db, key) => Repo.GetByUsername(db, key),
    (db, u) => Repo.Insert(db, u),
    (db, u) => Step(db, Throws(UpdateMissing)),
    (db, id) => Repo.Remove(db, id),
    db => Step(db, Throws(GetAllMissing)))

  /** The adapter with the `update` the user service relies on. */
  const CloudantUsers: UserRepo<DocStore.Db> :=
    CloudantUsersAsWritten.(update := (db, u) => Repo.Update(db, u))

  /** As written, a password reset can never succeed and never writes: the
      read may work, but the write is a call of `undefined`. */
  lemma ResetPasswordAsWrittenNeverSaves(db: DocStore.Db, id: Id, password: Value)
    ensures var r := UserService.ResetPassword(CloudantUsersAsWritten, db, id, password);
      && r.out == Rejects(UserService.SavePasswordError)
      && r.state == db
  {
  }

  /** As written, listing users throws before any request is made. */
  lemma GetUsersAsWrittenThrows(db: DocStore.Db)
    ensures UserService.GetUsers(CloudantUsersAsWritten, db) == Run(db, [GetAllCall], Throws(GetAllMissing))
  {
  }

  /** With `update` in place, resetting the password of a stored user
      succeeds, and reading the user back shows the new password (`null`
      for `undefined`, which the store does not keep) and every other field
      as it was. */
  lemma ResetPasswordChangesOnlyPassword(db: DocStore.Db, id: Id, password: Value)
    requires db.link.Up? && id in db.docs && id != "" && DocStore.Wf(db)
    ensures var before := Repo.GetById(db, id).out;
      var r := UserService.ResetPassword(CloudantUsers, db, id, password);
      && before.Resolves?
      && r.out.Resolves?
      && Repo.GetById(r.state, id).out == Resolves(Persisted(UserService.WithPassword(before.value, password)))
      && Field(Repo.GetById(r.state, id).out.value.data, "password") == (if password == Undefined then Null else password)
      && UserDiff(before.value, Repo.GetById(r.state, id).out.value) <= {"password"}
      && r.state.docs.Keys == db.docs.Keys
      && (forall other :: other in db.docs && other != id ==> r.state.docs[other] == db.docs[other])
  {
    var before := Repo.GetById(db, id).out.value;
    var written := UserService.WithPassword(before, password);
    assert Field(written.data, "id") == Str(id);
    Repo.UpdateThenGetById(db, written);
    var after := Persisted(written);
    forall k | k in UserKeys && k != "password"
      ensures after.data[k] == before.data[k]
    {
      assert written.data[k] == before.data[k];
      assert before.data[k] != Undefined by {
        if k != "id" && k in db.docs[id].body {
          assert db.docs[id].body[k] != Undefined;
        }
      }
    }
  }

  /** Registering a valid user under a username nobody has is exactly one
      lookup followed by the adapter's insert. */
  lemma RegisterFreshInserts(db: DocStore.Db, valid: User -> bool, dto: Fields)
    requires db.link.Up? && DocStore.Uuid(db.next) !in db.docs
    requires valid(NewUser(dto))
    requires DocStore.UsersNamed(db, Field(NewUser(dto).data, "username")) == {}
    ensures var ins := Repo.Insert(db, NewUser(dto));
      && ins.out.Resolves?
      && UserService.RegisterUser(CloudantUsers, db, valid, dto)
         == Run(ins.state, [GetByUsernameCall(Field(NewUser(dto).data, "username")), InsertCall(NewUser(dto))], ins.out)
  {
    var name := Field(NewUser(dto).data, "username");
    assert CloudantUsers.getByUsername(db, name) == Repo.GetByUsername(db, name);
    assert CloudantUsers.insert(db, NewUser(dto)) == Repo.Insert(db, NewUser(dto));
  }

  /** The registration scenario: a fresh username registers and comes back
      with the assigned id; a second registration under the same username
      is refused without writing anything. */
  lemma RegisterThenRegisterAgain(db: DocStore.Db, valid: User -> bool, dto: Fields, dto2: Fields, name: string)
    requires db.link.Up? && DocStore.Uuid(db.next) !in db.docs
    requires valid(NewUser(dto)) && valid(NewUser(dto2))
    requires Field(NewUser(dto).data, "username") == Str(name)
    requires Field(NewUser(dto2).data, "username") == Str(name)
    requires DocStore.UsersNamed(db, Str(name)) == {}
    ensures var first := UserService.RegisterUser(CloudantUsers, db, valid, dto);
      && first.out.Resolves?
      && first.out.value.data["id"] == Str(DocStore.Uuid(db.next))
      && first.out.value.data["username"] == Str(name)
      && var second := UserService.RegisterUser(CloudantUsers, first.state, valid, dto2);
         && second.out == Rejects(UserService.AlreadyRegisteredPrefix + name)
         && second.state == first.state
         && InsertCall(NewUser(dto2)) !in second.calls
  {
    var first := UserService.RegisterUser(CloudantUsers, db, valid, dto);
    Repo.InsertThenGetByUsername(db, NewUser(dto));
    ProjectIdentity(NewUser(dto).data, UserKeys);
    assert NewUser(NewUser(dto).data) == NewUser(dto);
  }

  /** Logging in right after inserting a user whose username nobody had
      gives the user, as the store keeps it, exactly when the password
      matches. */
  lemma LoginAfterInsert(db: DocStore.Db, u: User, name: string, password: string)
    requires db.link.Up? && DocStore.Uuid(db.next) !in db.docs
    requires u.data.Keys == UserKeys && Field(u.data, "username") == Str(name)
    requires DocStore.UsersNamed(db, Str(name)) == {}
    ensures var ins := Repo.Insert(db, u);
      && ins.out.Resolves?
      && UserService.Authenticate(CloudantUsers, ins.state, name, password).out
         == Resolves(if Field(u.data, "password") == Str(password) then Some(Persisted(ins.out.value)) else None)
  {
    ProjectIdentity(u.data, UserKeys);
    assert NewUser(u.data) == u;
    var ins := Repo.Insert(db, u);
    Repo.InsertThenGetByUsername(db, u);
    var stored := Persisted(ins.out.value);
    assert CloudantUsers.getByUsername(ins.state, Str(name)) == Step(ins.state, Resolves(Some(stored)));
    assert ins.out.value.data["password"] == u.data["password"];
    assert Field(stored.data, "password") == Str(password) <==> Field(u.data, "password") == Str(password);
  }

  /** Inserting a user does not make a different name known. */
  lemma StrangerAfterInsert(db: DocStore.Db, u: User, stranger: string, password: string)
    requires db.link.Up? && DocStore.Uuid(db.next) !in db.docs
    requires Field(NewUser(u.data).data, "username") != Str(stranger)
    requires DocStore.UsersNamed(db, Str(stranger)) == {}
    ensures UserService.Authenticate(CloudantUsers, Repo.Insert(db, u).state, stranger, password).out == Resolves(None)
  {
    Repo.InsertNamesOnlyNewDoc(db, u, Str(stranger));
    var after := Repo.Insert(db, u).state;
    assert CloudantUsers.getByUsername(after, Str(stranger)) == Step(after, Resolves(None));
  }

  /** After registration, logging in gives the user back, as the store
      keeps it, exactly when the password matches, and `null` otherwise; an
      unknown name gives `null`. */
  lemma AuthenticateAfterRegister(db: DocStore.Db, valid: User -> bool, dto: Fields, name: string,
                                  password: string, stranger: string)
    requires db.link.Up? && DocStore.Uuid(db.next) !in db.docs
    requires valid(NewUser(dto))
    requires Field(NewUser(dto).data, "username") == Str(name)
    requires DocStore.UsersNamed(db, Str(name)) == {} && stranger != name
    requires DocStore.UsersNamed(db, Str(stranger)) == {}
    ensures var first := UserService.RegisterUser(CloudantUsers, db, valid, dto);
      var login := UserService.Authenticate(CloudantUsers, first.state, name, password);
      && first.out.Resolves?
      && login.out == Resolves(if Field(NewUser(dto).data, "password") == Str(password)
                               then Some(Persisted(first.out.value)) else None)
      && UserService.Authenticate(CloudantUsers, first.state, stranger, password).out == Resolves(None)
  {
    RegisterFreshInserts(db, valid, dto);
    LoginAfterInsert(db, NewUser(dto), name, password);
    StrangerAfterInsert(db, NewUser(dto), stranger, password);
  }

  /** Removing with a null, undefined or empty id throws before any request:
      the database is exactly as it was. */
  lemma RemoveUserFalsyIdTouchesNothing(db: DocStore.Db, id: Option<Id>)
    requires !Repo.Present(id)
    ensures UserService.RemoveUser(CloudantUsers, db, id) == Run(db, [RemoveCall(id)], Throws(Repo.NullIdError))
  {
  }
}
