/**
  The repository ports the services depend on. A port is a record of
  operations over some storage state `S`; any adapter, or a test double,
  can fill it in. Services report, besides the final state and outcome, the
  port calls they made, in order, so that "no repository call" and "never
  calls insert" are statements about that list.
 */
module Ports {
  import opened Json
  import opened Outcomes
  import opened Entities
  import DocStore

  /** A port call of the user service. */
  datatype UserCall =
    | GetByIdCall(id: Id)
    | GetByUsernameCall(key: Value)
    | InsertCall(user: User)
    | UpdateCall(user: User)
    | RemoveCall(target: Option<Id>)
    | GetAllCall

  /** The user repository port. */
  datatype UserRepo<!S> = UserRepo(
    getById: (S, Id) -> Step<S, User>,
    getByUsername: (S, Value) -> Step<S, Option<User>>,
    insert: (S, User) -> Step<S, User>,
    update: (S, User) -> Step<S, User>,
    remove: (S, Option<Id>) -> Step<S, DocStore.WriteAck>,
    getAll: S -> Step<S, seq<User>>)

  /** A port call of the bolo service. */
  datatype BoloCall =
    | BoloInsertCall(bolo: Bolo)
    | BoloUpdateCall(bolo: Bolo)
    | GetBoloCall(id: Id)
    | GetBolosCall
    | DeleteCall(id: Id)

  /** The bolo repository port; its adapter is not part of this model, so
      every operation may succeed or fail. */
  datatype BoloRepo<!S> = BoloRepo(
    insert: (S, Bolo) -> Step<S, Bolo>,
    update: (S, Bolo) -> Step<S, Bolo>,
    getBolo: (S, Id) -> Step<S, Bolo>,
    getBolos: S -> Step<S, seq<Bolo>>,
    delete: (S, Id) -> Step<S, DocStore.WriteAck>)

  /** A service call: final state, the port calls made, how it ended. */
  datatype Run<S, C, +T> = Run(state: S, calls: seq<C>, out: Outcome<T>)
}
