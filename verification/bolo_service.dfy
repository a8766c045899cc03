/**
  `BoloService`: bolo writes wrapped into a `{success, error}` envelope that
  always resolves, and reads and deletes passed straight through to the bolo
  repository port.

  Whether a bolo is valid is decided by the domain entity, which is not part
  of this model; the service takes that decision as the predicate `valid`.
 */
module BoloService {
  import opened Json
  import opened Outcomes
  import opened Entities
  import opened Ports
  import DocStore

  const InvalidBolo := "invalid bolo data"

  /** `{success: true}` or `{success: false, error: message}`. */
  datatype Envelope = Envelope(success: bool, error: Option<string>)

  /** The `then`/`catch` pair both writes end with: resolve to an envelope
      whatever the repository did, unless it threw before giving a promise. */
  function Wrap<T>(o: Outcome<T>): (r: Outcome<Envelope>)
    ensures o.Throws? ==> r == Throws(o.reason)
    ensures o.Resolves? ==> r == Resolves(Envelope(true, None))
    ensures o.Rejects? ==> r == Resolves(Envelope(false, Some(o.reason)))
  {
    match o
    case Resolves(_) => Resolves(Envelope(true, None))
    case Rejects(e) => Resolves(Envelope(false, Some(e)))
    case Throws(e) => Throws(e)
  }

  /** `createBolo(boloData, attachments)` as written: the validity check
      builds a rejected promise and drops it, so the insert happens either
      way, and the attachments are never passed on. */
  function CreateBolo<S>(repo: BoloRepo<S>, s: S, valid: Bolo -> bool, boloData: Fields,
                         attachments: seq<Attachment>): (r: Run<S, BoloCall, Envelope>)
    ensures r.calls == [BoloInsertCall(NewBolo(boloData))]
    ensures var ins := repo.insert(s, NewBolo(boloData));
      && r.state == ins.state
      && (ins.out.Throws? ==> r.out == Throws(ins.out.reason))
      && (!ins.out.Throws? ==> r.out.Resolves?)
      && (r.out.Resolves? ==>
            (r.out.value.success <==> ins.out.Resolves?)
            && (ins.out.Rejects? ==> r.out.value.error == Some(ins.out.reason))
            && (ins.out.Resolves? ==> r.out.value.error == None))
  {
    var bolo := NewBolo(boloData);
    var ins := repo.insert(s, bolo);
    Run(ins.state, [BoloInsertCall(bolo)], Wrap(ins.out))
  }

  /** `createBolo` does not depend on validity or on the attachments. */
  lemma CreateBoloIgnoresValidityAndAttachments<S>(repo: BoloRepo<S>, s: S,
      valid1: Bolo -> bool, valid2: Bolo -> bool, boloData: Fields, a1: seq<Attachment>, a2: seq<Attachment>)
    ensures CreateBolo(repo, s, valid1, boloData, a1) == CreateBolo(repo, s, valid2, boloData, a2)
  {
  }

  /** An invalid bolo still reaches the repository's insert. */
  lemma CreateBoloInsertsInvalid<S>(repo: BoloRepo<S>, s: S, valid: Bolo -> bool, boloData: Fields,
                                    attachments: seq<Attachment>)
    requires !valid(NewBolo(boloData))
    ensures BoloInsertCall(NewBolo(boloData)) in CreateBolo(repo, s, valid, boloData, attachments).calls
  {
  }

  /** `createBolo` with the rejection returned, as the validity check
      evidently intends: an invalid bolo rejects with no repository call. */
  function CreateBoloGated<S>(repo: BoloRepo<S>, s: S, valid: Bolo -> bool, boloData: Fields,
                              attachments: seq<Attachment>): (r: Run<S, BoloCall, Envelope>)
    ensures !valid(NewBolo(boloData)) ==> r == Run(s, [], Rejects(InvalidBolo))
    ensures valid(NewBolo(boloData)) ==> r == CreateBolo(repo, s, valid, boloData, attachments)
  {
    var bolo := NewBolo(boloData);
    if !valid(bolo) then Run(s, [], Rejects(InvalidBolo))
    else CreateBolo(repo, s, valid, boloData, attachments)
  }

  /** With the gate in place, only valid bolos are ever inserted. */
  lemma CreateBoloGatedInsertsOnlyValid<S>(repo: BoloRepo<S>, s: S, valid: Bolo -> bool,
                                           boloData: Fields, attachments: seq<Attachment>)
    ensures forall c :: c in CreateBoloGated(repo, s, valid, boloData, attachments).calls ==>
      c.BoloInsertCall? && valid(c.bolo)
  {
  }

  /** `updateBolo(boloData, attachments)`: an invalid bolo throws before any
      repository call; otherwise the update's outcome becomes an envelope. */
  function UpdateBolo<S>(repo: BoloRepo<S>, s: S, valid: Bolo -> bool, boloData: Fields,
                         attachments: seq<Attachment>): (r: Run<S, BoloCall, Envelope>)
    ensures !valid(NewBolo(boloData)) ==> r == Run(s, [], Throws(InvalidBolo))
    ensures valid(NewBolo(boloData)) ==>
      var up := repo.update(s, NewBolo(boloData));
      && r.calls == [BoloUpdateCall(NewBolo(boloData))]
      && r.state == up.state
      && (up.out.Throws? ==> r.out == Throws(up.out.reason))
      && (!up.out.Throws? ==> r.out.Resolves?)
      && (r.out.Resolves? ==>
            (r.out.value.success <==> up.out.Resolves?)
            && (up.out.Rejects? ==> r.out.value.error == Some(up.out.reason))
            && (up.out.Resolves? ==> r.out.value.error == None))
  {
    var bolo := NewBolo(boloData);
    if !valid(bolo) then Run(s, [], Throws(InvalidBolo))
    else
      var up := repo.update(s, bolo);
      Run(up.state, [BoloUpdateCall(bolo)], Wrap(up.out))
  }

  /** Neither write ever rejects: a repository failure is reported inside a
      resolved envelope. */
  lemma WritesNeverReject<S>(repo: BoloRepo<S>, s: S, valid: Bolo -> bool, boloData: Fields,
                             attachments: seq<Attachment>)
    ensures !CreateBolo(repo, s, valid, boloData, attachments).out.Rejects?
    ensures !UpdateBolo(repo, s, valid, boloData, attachments).out.Rejects?
  {
  }

  /** `getBolos()`: the repository's result, unchanged. */
  function GetBolos<S>(repo: BoloRepo<S>, s: S): (r: Run<S, BoloCall, seq<Bolo>>)
    ensures r.calls == [GetBolosCall]
    ensures r.state == repo.getBolos(s).state && r.out == repo.getBolos(s).out
  {
    var all := repo.getBolos(s);
    Run(all.state, [GetBolosCall], all.out)
  }

  /** `getBolo(id)`: the repository's result, unchanged. */
  function GetBolo<S>(repo: BoloRepo<S>, s: S, id: Id): (r: Run<S, BoloCall, Bolo>)
    ensures r.calls == [GetBoloCall(id)]
    ensures r.state == repo.getBolo(s, id).state && r.out == repo.getBolo(s, id).out
  {
    var got := repo.getBolo(s, id);
    Run(got.state, [GetBoloCall(id)], got.out)
  }

  /** `removeBolo(id)`: the repository's `delete` result, unchanged. */
  function RemoveBolo<S>(repo: BoloRepo<S>, s: S, id: Id): (r: Run<S, BoloCall, DocStore.WriteAck>)
    ensures r.calls == [DeleteCall(id)]
    ensures r.state == repo.delete(s, id).state && r.out == repo.delete(s, id).out
  {
    var rm := repo.delete(s, id);
    Run(rm.state, [DeleteCall(id)], rm.out)
  }
}
