/** The Person use case: existence probes against the person port, keyed by `cc`. */
module Persons {
  import opened Outcomes
  import opened Domain
  import opened Store

  type PersonTable = map<int, Person>

  // ---- What each operation does to the table of persons ----

  /** `create`: no existence probe, the person is always saved. */
  function CreateSpec(t: PersonTable, p: Person): Step<Person, int, Person> {
    Step(Ok(p), t[PersonId(p) := p])
  }

  /** `edit(cc, p)`: saves `p` as given, provided a person `cc` exists. */
  function EditSpec(t: PersonTable, cc: int, p: Person): Step<Person, int, Person> {
    if cc in t then Step(Ok(p), t[PersonId(p) := p]) else Step(NotFound, t)
  }

  /** `drop(cc)`: deletes the person `cc`, provided it exists; the answer is the port's. */
  function DropSpec(t: PersonTable, cc: int): Step<bool, int, Person> {
    if cc in t then Step(Ok(true), t - {cc}) else Step(NotFound, t)
  }

  /** `findOne(cc)`. */
  function FindOneSpec(t: PersonTable, cc: int): Result<Person> {
    if cc in t then Ok(t[cc]) else NotFound
  }

  /** `getPhones(cc)`: the phone list carried by the loaded person. */
  function GetPhonesSpec(t: PersonTable, cc: int): Result<seq<Phone>> {
    match FindOneSpec(t, cc)
    case Ok(p) => Ok(p.phoneNumbers)
    case NotFound => NotFound
  }

  /** `getStudies(cc)`: the study list carried by the loaded person. */
  function GetStudiesSpec(t: PersonTable, cc: int): Result<seq<Study>> {
    match FindOneSpec(t, cc)
    case Ok(p) => Ok(p.studies)
    case NotFound => NotFound
  }

  // ---- The use case itself ----

  class PersonUseCase {
    var persistence: Port<int, Person>

    ghost predicate Valid()
      reads this, persistence
    {
      persistence.Valid() && persistence.keyOf == PersonId
    }

    constructor (port: Port<int, Person>)
      requires port.Valid() && port.keyOf == PersonId
      ensures Valid() && persistence == port
    {
      persistence := port;
    }

    /** Replaces the persistence port. */
    method SetPersistence(port: Port<int, Person>)
      requires port.Valid() && port.keyOf == PersonId
      modifies this
      ensures Valid() && persistence == port
    {
      persistence := port;
    }

    method Create(p: Person) returns (r: Person)
      requires Valid()
      modifies persistence
      ensures Valid()
      ensures Step(Ok(r), persistence.records) == CreateSpec(old(persistence.records), p)
    {
      r := persistence.Save(p);
    }

    method Edit(cc: int, p: Person) returns (r: Result<Person>)
      requires Valid()
      modifies persistence
      ensures Valid()
      ensures Step(r, persistence.records) == EditSpec(old(persistence.records), cc, p)
    {
      var found := persistence.FindById(cc);
      if found.Some? {
        var saved := persistence.Save(p);
        r := Ok(saved);
      } else {
        r := NotFound;
      }
    }

    method Drop(cc: int) returns (r: Result<bool>)
      requires Valid()
      modifies persistence
      ensures Valid()
      ensures Step(r, persistence.records) == DropSpec(old(persistence.records), cc)
    {
      var found := persistence.FindById(cc);
      if found.Some? {
        var removed := persistence.Delete(cc);
        r := Ok(removed);
      } else {
        r := NotFound;
      }
    }

    method FindAll() returns (rows: seq<Person>)
      requires Valid()
      ensures rows == persistence.FindAll()
      ensures forall cc :: cc in persistence.records ==> persistence.records[cc] in rows
      ensures forall p :: p in rows ==> FindOneSpec(persistence.records, PersonId(p)) == Ok(p)
    {
      rows := persistence.FindAll();
    }

    method FindOne(cc: int) returns (r: Result<Person>)
      requires Valid()
      ensures r == FindOneSpec(persistence.records, cc)
    {
      var found := persistence.FindById(cc);
      if found.Some? {
        r := Ok(found.value);
      } else {
        r := NotFound;
      }
    }

    method Count() returns (n: int)
      requires Valid()
      ensures n == |persistence.FindAll()|
      ensures n == |persistence.records|
    {
      var rows := FindAll();
      n := |rows|;
    }

    method GetPhones(cc: int) returns (r: Result<seq<Phone>>)
      requires Valid()
      ensures r == GetPhonesSpec(persistence.records, cc)
    {
      var found := persistence.FindById(cc);
      if found.Some? {
        r := Ok(found.value.phoneNumbers);
      } else {
        r := NotFound;
      }
    }

    method GetStudies(cc: int) returns (r: Result<seq<Study>>)
      requires Valid()
      ensures r == GetStudiesSpec(persistence.records, cc)
    {
      var found := persistence.FindById(cc);
      if found.Some? {
        r := Ok(found.value.studies);
      } else {
        r := NotFound;
      }
    }
  }

  // ---- Properties of the operations ----

  /** Creating twice under the same `cc` succeeds both times; the later person is the one kept. */
  lemma CreateIsLastWriteWins(t: PersonTable, p: Person, q: Person)
    requires PersonId(q) == PersonId(p)
    ensures CreateSpec(t, p).result == Ok(p)
    ensures CreateSpec(CreateSpec(t, p).after, q) == Step(Ok(q), t[PersonId(p) := q])
    ensures FindOneSpec(CreateSpec(CreateSpec(t, p).after, q).after, PersonId(p)) == Ok(q)
  {
  }

  /** `edit` succeeds exactly when `cc` is stored, and changes nothing when it fails. */
  lemma EditSucceedsIffPresent(t: PersonTable, cc: int, p: Person)
    ensures EditSpec(t, cc, p).result.Ok? <==> cc in t
    ensures cc !in t ==> EditSpec(t, cc, p).after == t
    ensures cc in t ==> EditSpec(t, cc, p) == Step(Ok(p), t[PersonId(p) := p])
  {
  }

  /** `edit` does not pin `cc`: a payload with another id is stored under its own id,
      and the person under `cc` stays as it was. */
  lemma EditDoesNotPinIdentity(t: PersonTable, cc: int, p: Person)
    requires cc in t && PersonId(p) != cc
    ensures EditSpec(t, cc, p).after[cc] == t[cc]
    ensures FindOneSpec(EditSpec(t, cc, p).after, PersonId(p)) == Ok(p)
  {
  }

  /** `drop` succeeds exactly when `cc` is stored; then only `cc` is gone. */
  lemma DropSucceedsIffPresent(t: PersonTable, cc: int)
    ensures DropSpec(t, cc).result == (if cc in t then Ok(true) else NotFound)
    ensures cc !in t ==> DropSpec(t, cc).after == t
    ensures cc !in DropSpec(t, cc).after
    ensures forall k :: k != cc ==> FindOneSpec(DropSpec(t, cc).after, k) == FindOneSpec(t, k)
  {
  }

  /** `findOne` returns the stored person exactly when there is one. */
  lemma FindOneIffPresent(t: PersonTable, cc: int)
    ensures FindOneSpec(t, cc).Ok? <==> cc in t
    ensures cc in t ==> FindOneSpec(t, cc).value == t[cc]
  {
  }

  /** A missing person is an error for `getPhones`/`getStudies`, never an empty list. */
  lemma ListsRequirePerson(t: PersonTable, cc: int)
    ensures cc !in t ==> GetPhonesSpec(t, cc) == NotFound && GetStudiesSpec(t, cc) == NotFound
    ensures cc in t ==> GetPhonesSpec(t, cc) == Ok(t[cc].phoneNumbers)
    ensures cc in t ==> GetStudiesSpec(t, cc) == Ok(t[cc].studies)
  {
  }
}
