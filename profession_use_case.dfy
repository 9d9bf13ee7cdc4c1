/** The Profession use case: existence probes against the profession port, keyed by `identification`. */
module Professions {
  import opened Outcomes
  import opened Domain
  import opened Store

  type ProfessionTable = map<int, Profession>

  // ---- What each operation does to the table of professions ----

  /** `create`: no existence probe, the profession is always saved. */
  function CreateSpec(t: ProfessionTable, pr: Profession): Step<Profession, int, Profession> {
    Step(Ok(pr), t[ProfessionId(pr) := pr])
  }

  /** `edit(id, pr)`: the path id overwrites the payload's before saving. */
  function EditSpec(t: ProfessionTable, id: int, pr: Profession): Step<Profession, int, Profession> {
    if id in t then
      var pinned := PinProfession(pr, id);
      Step(Ok(pinned), t[ProfessionId(pinned) := pinned])
    else Step(NotFound, t)
  }

  /** `drop(id)`. */
  function DropSpec(t: ProfessionTable, id: int): Step<bool, int, Profession> {
    if id in t then Step(Ok(true), t - {id}) else Step(NotFound, t)
  }

  /** `findOne(id)`. */
  function FindOneSpec(t: ProfessionTable, id: int): Result<Profession> {
    if id in t then Ok(t[id]) else NotFound
  }

  // ---- The use case itself ----

  class ProfessionUseCase {
    var persistence: Port<int, Profession>

    ghost predicate Valid()
      reads this, persistence
    {
      persistence.Valid() && persistence.keyOf == ProfessionId
    }

    constructor (port: Port<int, Profession>)
      requires port.Valid() && port.keyOf == ProfessionId
      ensures Valid() && persistence == port
    {
      persistence := port;
    }

    /** Replaces the persistence port. */
    method SetPersistence(port: Port<int, Profession>)
      requires port.Valid() && port.keyOf == ProfessionId
      modifies this
      ensures Valid() && persistence == port
    {
      persistence := port;
    }

    method Create(pr: Profession) returns (r: Profession)
      requires Valid()
      modifies persistence
      ensures Valid()
      ensures Step(Ok(r), persistence.records) == CreateSpec(old(persistence.records), pr)
    {
      r := persistence.Save(pr);
    }

    method Edit(id: int, pr: Profession) returns (r: Result<Profession>)
      requires Valid()
      modifies persistence
      ensures Valid()
      ensures Step(r, persistence.records) == EditSpec(old(persistence.records), id, pr)
    {
      var found := persistence.FindById(id);
      if found.Some? {
        var pinned := PinProfession(pr, id);
        var saved := persistence.Save(pinned);
        r := Ok(saved);
      } else {
        r := NotFound;
      }
    }

    method Drop(id: int) returns (r: Result<bool>)
      requires Valid()
      modifies persistence
      ensures Valid()
      ensures Step(r, persistence.records) == DropSpec(old(persistence.records), id)
    {
      var found := persistence.FindById(id);
      if found.Some? {
        var removed := persistence.Delete(id);
        r := Ok(removed);
      } else {
        r := NotFound;
      }
    }

    method FindAll() returns (rows: seq<Profession>)
      requires Valid()
      ensures rows == persistence.FindAll()
      ensures forall id :: id in persistence.records ==> persistence.records[id] in rows
      ensures forall pr :: pr in rows ==> FindOneSpec(persistence.records, ProfessionId(pr)) == Ok(pr)
    {
      rows := persistence.FindAll();
    }

    method FindOne(id: int) returns (r: Result<Profession>)
      requires Valid()
      ensures r == FindOneSpec(persistence.records, id)
    {
      var found := persistence.FindById(id);
      if found.Some? {
        r := Ok(found.value);
      } else {
        r := NotFound;
      }
    }

    method Count() returns (n: int)
      requires Valid()
      ensures n == |persistence.FindAll()|
      ensures n == |persistence.records|
    {
      var rows := FindAll();
      n := |rows|;
    }
  }

  // ---- Properties of the operations ----

  /** Creating twice under the same id succeeds both times; the later profession is kept. */
  lemma CreateIsLastWriteWins(t: ProfessionTable, pr: Profession, again: Profession)
    requires ProfessionId(again) == ProfessionId(pr)
    ensures CreateSpec(t, pr).result == Ok(pr)
    ensures CreateSpec(CreateSpec(t, pr).after, again) == Step(Ok(again), t[ProfessionId(pr) := again])
    ensures FindOneSpec(CreateSpec(CreateSpec(t, pr).after, again).after, ProfessionId(pr)) == Ok(again)
  {
  }

  /** `edit` succeeds exactly when the id is stored, and changes nothing otherwise. */
  lemma EditSucceedsIffPresent(t: ProfessionTable, id: int, pr: Profession)
    ensures EditSpec(t, id, pr).result.Ok? <==> id in t
    ensures id !in t ==> EditSpec(t, id, pr).after == t
  {
  }

  /** After a successful `edit` the profession carries the path id and is found under it;
      the payload's own id, when different, is left as it was. */
  lemma EditPinsIdentification(t: ProfessionTable, id: int, pr: Profession)
    requires id in t
    ensures EditSpec(t, id, pr).result == Ok(pr.(identification := id))
    ensures FindOneSpec(EditSpec(t, id, pr).after, id) == Ok(pr.(identification := id))
    ensures ProfessionId(pr) != id ==>
              FindOneSpec(EditSpec(t, id, pr).after, ProfessionId(pr)) == FindOneSpec(t, ProfessionId(pr))
    ensures EditSpec(t, id, pr).after.Keys == t.Keys
  {
  }

  /** `drop` succeeds exactly when the id is stored; then only that profession is gone. */
  lemma DropSucceedsIffPresent(t: ProfessionTable, id: int)
    ensures DropSpec(t, id).result == (if id in t then Ok(true) else NotFound)
    ensures id !in t ==> DropSpec(t, id).after == t
    ensures id !in DropSpec(t, id).after
    ensures forall k :: k != id ==> FindOneSpec(DropSpec(t, id).after, k) == FindOneSpec(t, k)
  {
  }

  /** `findOne` returns the stored profession exactly when there is one. */
  lemma FindOneIffPresent(t: ProfessionTable, id: int)
    ensures FindOneSpec(t, id).Ok? <==> id in t
    ensures id in t ==> FindOneSpec(t, id).value == t[id]
  {
  }
}
