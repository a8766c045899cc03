/**
  The domain entities `User` and `Bolo`: value containers over a fixed set of
  recognised keys, built from an untrusted record by copying the recognised
  keys and defaulting the missing ones to `null`, and compared attribute by
  attribute with `diff`.

  The domain module itself is not part of this model. The constructors are
  assumed to copy the recognised keys and default missing ones to `null`, and
  the key sets below are assumed; whether an entity is valid is left
  uninterpreted and passed to the services as a predicate.
 */
module Entities {
  import opened Json

  /** Recognised `User` attributes. */
  const UserKeys: set<string> := {"id", "username", "password", "role"}

  /** Recognised `Bolo` attributes (attachments travel separately). */
  const BoloKeys: set<string> := {"id", "name", "category", "summary", "dateCreated"}

  datatype User = User(data: Fields)

  datatype Bolo = Bolo(data: Fields)

  /** An uploaded file the caller wants attached to a bolo. */
  datatype Attachment = Attachment(name: string, contentType: string, path: string)

  /** Copy the keys of `keys` from `dto`, `null` for the ones it lacks. */
  function Project(dto: Fields, keys: set<string>): (r: Fields)
    ensures r.Keys == keys
    ensures forall k :: k in keys && k in dto ==> r[k] == dto[k]
    ensures forall k :: k in keys && k !in dto ==> r[k] == Null
  {
    map k | k in keys :: if k in dto then dto[k] else Null
  }

  /** `new User(dto)`. */
  function NewUser(dto: Fields): User {
    User(Project(dto, UserKeys))
  }

  /** `new Bolo(dto)`. */
  function NewBolo(dto: Fields): Bolo {
    Bolo(Project(dto, BoloKeys))
  }

  /** The attribute names on which two records disagree, absent keys reading
      as `undefined`. */
  function Diff(a: Fields, b: Fields): (r: set<string>)
    ensures forall k :: k in r <==> (k in a.Keys + b.Keys && Field(a, k) != Field(b, k))
  {
    set k | k in a.Keys + b.Keys && Field(a, k) != Field(b, k)
  }

  /** `a.diff(b)` on users. */
  function UserDiff(a: User, b: User): set<string> {
    Diff(a.data, b.data)
  }

  /** A record already over exactly the recognised keys is left unchanged by
      the constructor, so constructing twice is constructing once. */
  lemma ProjectIdentity(d: Fields, keys: set<string>)
    requires d.Keys == keys
    ensures Project(d, keys) == d
  {
  }

  /** Overwriting one key changes at most that key, and changes it exactly
      when the new value differs from the old. */
  lemma DiffAfterSet(a: Fields, k: string, v: Value)
    ensures Diff(a, a[k := v]) == if Field(a, k) == v then {} else {k}
  {
  }

  /** A user as it reads back after a trip through the store: the fields
      that were `undefined` were not serialised, so the constructor gives
      them `null`. */
  function Persisted(u: User): (r: User)
    ensures r.data.Keys == UserKeys
    ensures forall k :: k in UserKeys ==> r.data[k] == if Field(u.data, k) == Undefined then Null else u.data[k]
    ensures NoUndefined(r.data)
  {
    NewUser(Defined(u.data))
  }

  /** A user over exactly the recognised keys with no `undefined` field
      comes back from the store unchanged. */
  lemma PersistedIdentity(u: User)
    requires u.data.Keys == UserKeys && NoUndefined(u.data)
    ensures Persisted(u) == u
  {
    forall k | k in UserKeys
      ensures Persisted(u).data[k] == u.data[k]
    {
      assert Field(u.data, k) == u.data[k];
    }
  }

  /** Constructing the user before storing it changes nothing of what reads
      back. */
  lemma PersistedOfNew(u: User)
    ensures Persisted(NewUser(u.data)) == Persisted(u)
  {
    forall k | k in UserKeys
      ensures Persisted(NewUser(u.data)).data[k] == Persisted(u).data[k]
    {
      assert Field(NewUser(u.data).data, k) == if k in u.data then u.data[k] else Null;
    }
  }
}
