/** The Phone use case: existence probes against the phone port, keyed by `number`. */
module Phones {
  import opened Outcomes
  import opened Domain
  import opened Store

  type PhoneTable = map<string, Phone>

  // ---- What each operation does to the table of phones ----

  /** `create`: rejected when a phone with the same number already exists. */
  function CreateSpec(t: PhoneTable, ph: Phone): Step<Phone, string, Phone> {
    if PhoneId(ph) in t then Step(NotFound, t) else Step(Ok(ph), t[PhoneId(ph) := ph])
  }

  /** `edit(number, ph)`: the path number overwrites the payload's before saving. */
  function EditSpec(t: PhoneTable, number: string, ph: Phone): Step<Phone, string, Phone> {
    if number in t then
      var pinned := PinNumber(ph, number);
      Step(Ok(pinned), t[PhoneId(pinned) := pinned])
    else Step(NotFound, t)
  }

  /** `drop(number)`. */
  function DropSpec(t: PhoneTable, number: string): Step<bool, string, Phone> {
    if number in t then Step(Ok(true), t - {number}) else Step(NotFound, t)
  }

  /** `findOne(number)`. */
  function FindOneSpec(t: PhoneTable, number: string): Result<Phone> {
    if number in t then Ok(t[number]) else NotFound
  }

  // ---- The use case itself ----

  class PhoneUseCase {
    var persistence: Port<string, Phone>

    ghost predicate Valid()
      reads this, persistence
    {
      persistence.Valid() && persistence.keyOf == PhoneId
    }

    constructor (port: Port<string, Phone>)
      requires port.Valid() && port.keyOf == PhoneId
      ensures Valid() && persistence == port
    {
      persistence := port;
    }

    /** Replaces the persistence port. */
    method SetPersistence(port: Port<string, Phone>)
      requires port.Valid() && port.keyOf == PhoneId
      modifies this
      ensures Valid() && persistence == port
    {
      persistence := port;
    }

    method Create(ph: Phone) returns (r: Result<Phone>)
      requires Valid()
      modifies persistence
      ensures Valid()
      ensures Step(r, persistence.records) == CreateSpec(old(persistence.records), ph)
    {
      var found := persistence.FindById(PhoneId(ph));
      if found.None? {
        var saved := persistence.Save(ph);
        r := Ok(saved);
      } else {
        r := NotFound;
      }
    }

    method Edit(number: string, ph: Phone) returns (r: Result<Phone>)
      requires Valid()
      modifies persistence
      ensures Valid()
      ensures Step(r, persistence.records) == EditSpec(old(persistence.records), number, ph)
    {
      var found := persistence.FindById(number);
      if found.Some? {
        var pinned := PinNumber(ph, number);
        var saved := persistence.Save(pinned);
        r := Ok(saved);
      } else {
        r := NotFound;
      }
    }

    method Drop(number: string) returns (r: Result<bool>)
      requires Valid()
      modifies persistence
      ensures Valid()
      ensures Step(r, persistence.records) == DropSpec(old(persistence.records), number)
    {
      var found := persistence.FindById(number);
      if found.Some? {
        var removed := persistence.Delete(number);
        r := Ok(removed);
      } else {
        r := NotFound;
      }
    }

    method FindAll() returns (rows: seq<Phone>)
      requires Valid()
      ensures rows == persistence.FindAll()
      ensures forall n :: n in persistence.records ==> persistence.records[n] in rows
      ensures forall ph :: ph in rows ==> FindOneSpec(persistence.records, PhoneId(ph)) == Ok(ph)
    {
      rows := persistence.FindAll();
    }

    method FindOne(number: string) returns (r: Result<Phone>)
      requires Valid()
      ensures r == FindOneSpec(persistence.records, number)
    {
      var found := persistence.FindById(number);
      if found.Some? {
        r := Ok(found.value);
      } else {
        r := NotFound;
      }
    }

    method Count() returns (n: int)
      requires Valid()
      ensures n == |persistence.FindAll()|
      ensures n == |persistence.records|
    {
      var rows := FindAll();
      n := |rows|;
    }

    /** The phones the port lists for `personId`; an empty list is returned,
        not raised, and the person's existence is not checked. */
    method GetPhonesOfPerson(personId: int) returns (phones: seq<Phone>)
      requires Valid()
      ensures phones == persistence.FindWhere(OwnedBy(personId))
      ensures forall ph :: ph in phones ==> ph in persistence.records.Values && ph.personId == personId
      ensures forall n :: n in persistence.records && persistence.records[n].personId == personId ==>
                persistence.records[n] in phones
    {
      phones := persistence.FindWhere(OwnedBy(personId));
    }
  }

  // ---- Properties of the operations ----

  /** `create` succeeds exactly when the number is new, and changes nothing otherwise. */
  lemma CreateSucceedsIffAbsent(t: PhoneTable, ph: Phone)
    ensures CreateSpec(t, ph).result.Ok? <==> PhoneId(ph) !in t
    ensures PhoneId(ph) in t ==> CreateSpec(t, ph).after == t
    ensures PhoneId(ph) !in t ==> CreateSpec(t, ph) == Step(Ok(ph), t[PhoneId(ph) := ph])
  {
  }

  /** A second `create` with the same number is rejected and the first phone stays. */
  lemma SecondCreateRejected(t: PhoneTable, ph: Phone, again: Phone)
    requires PhoneId(ph) !in t && PhoneId(again) == PhoneId(ph)
    ensures CreateSpec(CreateSpec(t, ph).after, again) == Step(NotFound, CreateSpec(t, ph).after)
    ensures FindOneSpec(CreateSpec(t, ph).after, PhoneId(ph)) == Ok(ph)
    ensures |CreateSpec(t, ph).after| == |t| + 1
  {
  }

  /** `edit` succeeds exactly when the number is stored, and changes nothing otherwise. */
  lemma EditSucceedsIffPresent(t: PhoneTable, number: string, ph: Phone)
    ensures EditSpec(t, number, ph).result.Ok? <==> number in t
    ensures number !in t ==> EditSpec(t, number, ph).after == t
  {
  }

  /** After a successful `edit` the phone carries the path number and is found under it;
      the payload's own number, when different, is left as it was. */
  lemma EditPinsNumber(t: PhoneTable, number: string, ph: Phone)
    requires number in t
    ensures EditSpec(t, number, ph).result == Ok(ph.(number := number))
    ensures FindOneSpec(EditSpec(t, number, ph).after, number) == Ok(ph.(number := number))
    ensures PhoneId(ph) != number ==>
              FindOneSpec(EditSpec(t, number, ph).after, PhoneId(ph)) == FindOneSpec(t, PhoneId(ph))
    ensures EditSpec(t, number, ph).after.Keys == t.Keys
  {
  }

  /** `drop` succeeds exactly when the number is stored; then only that phone is gone. */
  lemma DropSucceedsIffPresent(t: PhoneTable, number: string)
    ensures DropSpec(t, number).result == (if number in t then Ok(true) else NotFound)
    ensures number !in t ==> DropSpec(t, number).after == t
    ensures number !in DropSpec(t, number).after
    ensures forall n :: n != number ==> FindOneSpec(DropSpec(t, number).after, n) == FindOneSpec(t, n)
  {
  }

  /** `findOne` returns the stored phone exactly when there is one. */
  lemma FindOneIffPresent(t: PhoneTable, number: string)
    ensures FindOneSpec(t, number).Ok? <==> number in t
    ensures number in t ==> FindOneSpec(t, number).value == t[number]
  {
  }
}
