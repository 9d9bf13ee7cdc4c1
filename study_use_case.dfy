/** The Study use case: existence probes against the study port, keyed by the
    pair (person id, profession id). */
module Studies {
  import opened Outcomes
  import opened Domain
  import opened Store

  type StudyTable = map<(int, int), Study>

  // ---- What each operation does to the table of studies ----

  /** `create`: rejected when a study already exists for the pair it names. */
  function CreateSpec(t: StudyTable, s: Study): Step<Study, (int, int), Study> {
    if StudyId(s) in t then Step(NotFound, t) else Step(Ok(s), t[StudyId(s) := s])
  }

  /** `edit(personId, professionId, s)`: both path ids overwrite the payload's before saving. */
  function EditSpec(t: StudyTable, personId: int, professionId: int, s: Study): Step<Study, (int, int), Study> {
    if (personId, professionId) in t then
      var pinned := PinStudy(s, personId, professionId);
      Step(Ok(pinned), t[StudyId(pinned) := pinned])
    else Step(NotFound, t)
  }

  /** `drop(personId, professionId)`. */
  function DropSpec(t: StudyTable, personId: int, professionId: int): Step<bool, (int, int), Study> {
    if (personId, professionId) in t then Step(Ok(true), t - {(personId, professionId)})
    else Step(NotFound, t)
  }

  /** `findOne(personId, professionId)`. */
  function FindOneSpec(t: StudyTable, personId: int, professionId: int): Result<Study> {
    if (personId, professionId) in t then Ok(t[(personId, professionId)]) else NotFound
  }

  // ---- The use case itself ----

  class StudyUseCase {
    var persistence: Port<(int, int), Study>

    ghost predicate Valid()
      reads this, persistence
    {
      persistence.Valid() && persistence.keyOf == StudyId
    }

    constructor (port: Port<(int, int), Study>)
      requires port.Valid() && port.keyOf == StudyId
      ensures Valid() && persistence == port
    {
      persistence := port;
    }

    /** Replaces the persistence port. */
    method SetPersistence(port: Port<(int, int), Study>)
      requires port.Valid() && port.keyOf == StudyId
      modifies this
      ensures Valid() && persistence == port
    {
      persistence := port;
    }

    method Create(s: Study) returns (r: Result<Study>)
      requires Valid()
      modifies persistence
      ensures Valid()
      ensures Step(r, persistence.records) == CreateSpec(old(persistence.records), s)
    {
      var found := persistence.FindById(StudyId(s));
      if found.None? {
        var saved := persistence.Save(s);
        r := Ok(saved);
      } else {
        r := NotFound;
      }
    }

    method Edit(personId: int, professionId: int, s: Study) returns (r: Result<Study>)
      requires Valid()
      modifies persistence
      ensures Valid()
      ensures Step(r, persistence.records) == EditSpec(old(persistence.records), personId, professionId, s)
    {
      var found := persistence.FindById((personId, professionId));
      if found.Some? {
        var pinned := PinStudy(s, personId, professionId);
        var saved := persistence.Save(pinned);
        r := Ok(saved);
      } else {
        r := NotFound;
      }
    }

    method Drop(personId: int, professionId: int) returns (r: Result<bool>)
      requires Valid()
      modifies persistence
      ensures Valid()
      ensures Step(r, persistence.records) == DropSpec(old(persistence.records), personId, professionId)
    {
      var found := persistence.FindById((personId, professionId));
      if found.Some? {
        var removed := persistence.Delete((personId, professionId));
        r := Ok(removed);
      } else {
        r := NotFound;
      }
    }

    method FindAll() returns (rows: seq<Study>)
      requires Valid()
      ensures rows == persistence.FindAll()
      ensures forall k :: k in persistence.records ==> persistence.records[k] in rows
      ensures forall s :: s in rows ==> FindOneSpec(persistence.records, StudyId(s).0, StudyId(s).1) == Ok(s)
    {
      rows := persistence.FindAll();
    }

    method FindOne(personId: int, professionId: int) returns (r: Result<Study>)
      requires Valid()
      ensures r == FindOneSpec(persistence.records, personId, professionId)
    {
      var found := persistence.FindById((personId, professionId));
      if found.Some? {
        r := Ok(found.value);
      } else {
        r := NotFound;
      }
    }

    method Count() returns (n: int)
      requires Valid()
      ensures n == |persistence.FindAll()|
      ensures n == |persistence.records|
    {
      var rows := FindAll();
      n := |rows|;
    }
  }

  // ---- Properties of the operations ----

  /** `create` succeeds exactly when the pair is new, and changes nothing otherwise. */
  lemma CreateSucceedsIffAbsent(t: StudyTable, s: Study)
    ensures CreateSpec(t, s).result.Ok? <==> StudyId(s) !in t
    ensures StudyId(s) in t ==> CreateSpec(t, s).after == t
    ensures StudyId(s) !in t ==> CreateSpec(t, s) == Step(Ok(s), t[StudyId(s) := s])
  {
  }

  /** A second `create` for the same pair is rejected and the first study stays. */
  lemma SecondCreateRejected(t: StudyTable, s: Study, again: Study)
    requires StudyId(s) !in t && StudyId(again) == StudyId(s)
    ensures CreateSpec(CreateSpec(t, s).after, again) == Step(NotFound, CreateSpec(t, s).after)
    ensures FindOneSpec(CreateSpec(t, s).after, StudyId(s).0, StudyId(s).1) == Ok(s)
    ensures |CreateSpec(t, s).after| == |t| + 1
  {
  }

  /** `edit` succeeds exactly when the pair is stored, and changes nothing otherwise. */
  lemma EditSucceedsIffPresent(t: StudyTable, personId: int, professionId: int, s: Study)
    ensures EditSpec(t, personId, professionId, s).result.Ok? <==> (personId, professionId) in t
    ensures (personId, professionId) !in t ==> EditSpec(t, personId, professionId, s).after == t
  {
  }

  /** After a successful `edit` the saved study names the path pair, whatever the payload
      held, and is found under it; the payload's own pair, when different, is left as it was. */
  lemma EditPinsPair(t: StudyTable, personId: int, professionId: int, s: Study)
    requires (personId, professionId) in t
    ensures EditSpec(t, personId, professionId, s).result.Ok?
    ensures var saved := EditSpec(t, personId, professionId, s).result.value;
      && saved.person.identification == personId
      && saved.profession.identification == professionId
      && saved.universityName == s.universityName
      && saved.person == s.person.(identification := personId)
      && saved.profession == s.profession.(identification := professionId)
      && FindOneSpec(EditSpec(t, personId, professionId, s).after, personId, professionId) == Ok(saved)
    ensures StudyId(s) != (personId, professionId) ==>
              FindOneSpec(EditSpec(t, personId, professionId, s).after, StudyId(s).0, StudyId(s).1)
              == FindOneSpec(t, StudyId(s).0, StudyId(s).1)
    ensures EditSpec(t, personId, professionId, s).after.Keys == t.Keys
  {
  }

  /** `drop` succeeds exactly when the pair is stored; then only that study is gone. */
  lemma DropSucceedsIffPresent(t: StudyTable, personId: int, professionId: int)
    ensures DropSpec(t, personId, professionId).result ==
              (if (personId, professionId) in t then Ok(true) else NotFound)
    ensures (personId, professionId) !in t ==> DropSpec(t, personId, professionId).after == t
    ensures (personId, professionId) !in DropSpec(t, personId, professionId).after
    ensures forall a, b :: (a, b) != (personId, professionId) ==>
              FindOneSpec(DropSpec(t, personId, professionId).after, a, b) == FindOneSpec(t, a, b)
  {
  }

  /** `findOne` returns the stored study exactly when there is one. */
  lemma FindOneIffPresent(t: StudyTable, personId: int, professionId: int)
    ensures FindOneSpec(t, personId, professionId).Ok? <==> (personId, professionId) in t
    ensures (personId, professionId) in t ==>
              FindOneSpec(t, personId, professionId).value == t[(personId, professionId)]
  {
  }
}
