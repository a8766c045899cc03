/**
  `UserService`: the account rules on top of any user repository port —
  credential check, registration with a username-uniqueness check, password
  reset, and the shaping of untrusted input into a user record.

  Whether a user is valid is decided by the domain entity, which is not part
  of this model; registration takes that decision as the predicate `valid`.
 */
module UserService {
  import opened Json
  import opened Outcomes
  import opened Entities
  import opened Ports
  import DocStore

  const InvalidRegistration := "User registration invalid"
  const AlreadyRegisteredPrefix := "User already registered: "
  const SavePasswordError := "Error saving password to repository: "

  /** The stored password equals the supplied one. */
  predicate PasswordMatches(u: User, password: string) {
    Field(u.data, "password") == Str(password)
  }

  /** `authenticate(username, password)`: the user when the password
      matches, `null` for an unknown user or a wrong password alike. */
  function Authenticate<S>(repo: UserRepo<S>, s: S, username: string, password: string)
    : (r: Run<S, UserCall, Option<User>>)
    ensures r.calls == [GetByUsernameCall(Str(username))]
    ensures var look := repo.getByUsername(s, Str(username));
      && r.state == look.state
      && (r.out.Resolves? <==> look.out.Resolves?)
      && (!look.out.Resolves? ==> r.out == Forward(look.out))
      && (look.out.Resolves? ==>
            (r.out.value.Some? <==> look.out.value.Some? && PasswordMatches(look.out.value.value, password))
            && (r.out.value.Some? ==> r.out.value == look.out.value))
  {
    var look := repo.getByUsername(s, Str(username));
    var out := match look.out
      case Resolves(found) =>
        Resolves(if found.Some? && PasswordMatches(found.value, password) then found else None)
      case _ => Forward(look.out);
    Run(look.state, [GetByUsernameCall(Str(username))], out)
  }

  /** `deserializeId(id)`, also exported as `getUser`: the repository's
      `getById` result, unchanged. */
  function DeserializeId<S>(repo: UserRepo<S>, s: S, id: Id): (r: Run<S, UserCall, User>)
    ensures r.calls == [GetByIdCall(id)]
    ensures r.state == repo.getById(s, id).state && r.out == repo.getById(s, id).out
  {
    var got := repo.getById(s, id);
    Run(got.state, [GetByIdCall(id)], got.out)
  }

  /** `registerUser(dto)`: validity first (a synchronous throw), then the
      username lookup, then the insert. */
  function RegisterUser<S>(repo: UserRepo<S>, s: S, valid: User -> bool, dto: Fields)
    : (r: Run<S, UserCall, User>)
    ensures !valid(NewUser(dto)) ==> r == Run(s, [], Throws(InvalidRegistration))
    ensures valid(NewUser(dto)) ==>
      var lookup := GetByUsernameCall(Field(NewUser(dto).data, "username"));
      var look := repo.getByUsername(s, Field(NewUser(dto).data, "username"));
      && (!look.out.Resolves? ==> r == Run(look.state, [lookup], Forward(look.out)))
      && (look.out.Resolves? && look.out.value.Some? ==>
            r == Run(look.state, [lookup],
                     Rejects(AlreadyRegisteredPrefix + Show(Field(look.out.value.value.data, "username")))))
      && (look.out == Resolves(None) ==>
            var ins := repo.insert(look.state, NewUser(dto));
            r == Run(ins.state, [lookup, InsertCall(NewUser(dto))], Settle(ins.out)))
    ensures r.out.Resolves? ==> InsertCall(NewUser(dto)) in r.calls
  {
    var newuser := NewUser(dto);
    if !valid(newuser) then Run(s, [], Throws(InvalidRegistration))
    else
      var name := Field(newuser.data, "username");
      var look := repo.getByUsername(s, name);
      match look.out
      case Throws(_) => Run(look.state, [GetByUsernameCall(name)], Forward(look.out))
      case Rejects(_) => Run(look.state, [GetByUsernameCall(name)], Forward(look.out))
      case Resolves(Some(existing)) =>
        Run(look.state, [GetByUsernameCall(name)],
            Rejects(AlreadyRegisteredPrefix + Show(Field(existing.data, "username"))))
      case Resolves(None) =>
        var ins := repo.insert(look.state, newuser);
        Run(ins.state, [GetByUsernameCall(name), InsertCall(newuser)], Settle(ins.out))
  }

  /** Registration never inserts when the lookup finds a user, and never
      touches the repository for an invalid user. */
  lemma RegisterUserInsertsOnlyFreshNames<S>(repo: UserRepo<S>, s: S, valid: User -> bool, dto: Fields)
    ensures var r := RegisterUser(repo, s, valid, dto);
      (exists c :: c in r.calls && c.InsertCall?) <==>
        && valid(NewUser(dto))
        && repo.getByUsername(s, Field(NewUser(dto).data, "username")).out == Resolves(None)
  {
    var r := RegisterUser(repo, s, valid, dto);
    if valid(NewUser(dto))
      && repo.getByUsername(s, Field(NewUser(dto).data, "username")).out == Resolves(None) {
      assert r.calls[1].InsertCall?;
    }
  }

  /** `getUsers()`: the repository's `getAll` result, unchanged. */
  function GetUsers<S>(repo: UserRepo<S>, s: S): (r: Run<S, UserCall, seq<User>>)
    ensures r.calls == [GetAllCall]
    ensures r.state == repo.getAll(s).state && r.out == repo.getAll(s).out
  {
    var all := repo.getAll(s);
    Run(all.state, [GetAllCall], all.out)
  }

  /** The user `resetPassword` writes back: the fetched one with only its
      password replaced. */
  function WithPassword(u: User, password: Value): (w: User)
    ensures w.data.Keys == u.data.Keys + {"password"}
    ensures UserDiff(u, w) <= {"password"}
    ensures Field(w.data, "password") == password
  {
    DiffAfterSet(u.data, "password", password);
    User(u.data["password" := password])
  }

  /** `resetPassword(id, password)`: read, replace the password, write back.
      A failed read and a failed write reject with the same message. */
  function ResetPassword<S>(repo: UserRepo<S>, s: S, id: Id, password: Value)
    : (r: Run<S, UserCall, User>)
    ensures |r.calls| >= 1 && r.calls[0] == GetByIdCall(id)
    ensures var got := repo.getById(s, id);
      && (got.out.Throws? ==> r == Run(got.state, [GetByIdCall(id)], got.out))
      && (got.out.Rejects? ==> r == Run(got.state, [GetByIdCall(id)], Rejects(SavePasswordError)))
      && (got.out.Resolves? ==>
            var written := WithPassword(got.out.value, password);
            var up := repo.update(got.state, written);
            && r.calls == [GetByIdCall(id), UpdateCall(written)]
            && r.state == up.state
            && (up.out.Resolves? ==> r.out == up.out)
            && (!up.out.Resolves? ==> r.out == Rejects(SavePasswordError)))
    ensures forall c :: c in r.calls && c.UpdateCall? ==>
      UserDiff(repo.getById(s, id).out.value, c.user) <= {"password"} && Field(c.user.data, "password") == password
  {
    var got := repo.getById(s, id);
    match got.out
    case Throws(e) => Run(got.state, [GetByIdCall(id)], Throws(e))
    case Rejects(_) =>
      // the rejection handler throws `Unable to get current user data: `;
      // the final catch replaces it
      Run(got.state, [GetByIdCall(id)], Rejects(SavePasswordError))
    case Resolves(user) =>
      var written := WithPassword(user, password);
      var up := repo.update(got.state, written);
      var out := if up.out.Resolves? then up.out else Rejects(SavePasswordError);
      Run(up.state, [GetByIdCall(id), UpdateCall(written)], out)
  }

  /** `removeUser(id)`: the repository's `remove` result, unchanged. */
  function RemoveUser<S>(repo: UserRepo<S>, s: S, id: Option<Id>): (r: Run<S, UserCall, DocStore.WriteAck>)
    ensures r.calls == [RemoveCall(id)]
    ensures r.state == repo.remove(s, id).state && r.out == repo.remove(s, id).out
  {
    var rm := repo.remove(s, id);
    Run(rm.state, [RemoveCall(id)], rm.out)
  }

  /** `UserService.formatDTO(dto)`: exactly the recognised keys, each the
      input's value when truthy and `null` otherwise. */
  function FormatDTO(dto: Fields): (r: Fields)
    ensures r.Keys == UserKeys
    ensures forall k :: k in UserKeys && Truthy(Field(dto, k)) ==> r[k] == dto[k]
    ensures forall k :: k in UserKeys && !Truthy(Field(dto, k)) ==> r[k] == Null
  {
    var blank := NewUser(map[]).data;
    map k | k in blank.Keys :: OrNull(Field(dto, k))
  }

  /** Shaping an already shaped record changes nothing. */
  lemma FormatDTOIdempotent(dto: Fields)
    ensures FormatDTO(FormatDTO(dto)) == FormatDTO(dto)
  {
    var once := FormatDTO(dto);
    var twice := FormatDTO(once);
    forall k | k in UserKeys
      ensures twice[k] == once[k]
    {
      assert Field(once, k) == once[k];
    }
  }

  /** Shaping drops unrecognised keys: two inputs that agree on the
      recognised keys shape alike, whatever else they carry. */
  lemma FormatDTOIgnoresUnknownKeys(a: Fields, b: Fields)
    requires forall k :: k in UserKeys ==> Field(a, k) == Field(b, k)
    ensures FormatDTO(a) == FormatDTO(b)
  {
    forall k | k in UserKeys
      ensures FormatDTO(a)[k] == FormatDTO(b)[k]
    {
      assert Field(a, k) == Field(b, k);
    }
  }
}
