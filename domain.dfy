/** The entity records of the personal-records service and their identities. */
module Domain {

  /** A person, identified by the number of their citizen card (`cc`). The
      phones and studies are the lists carried by the loaded record. */
  datatype Person = Person(
    identification: int,
    firstName: string,
    lastName: string,
    phoneNumbers: seq<Phone>,
    studies: seq<Study>)

  /** A phone, identified by its number and owned by the person `personId`. */
  datatype Phone = Phone(number: string, company: string, personId: int)

  /** A profession, identified by `identification`. */
  datatype Profession = Profession(identification: int, name: string, description: string)

  /** "This person studied this profession"; its identity is the pair of the two ids. */
  datatype Study = Study(person: Person, profession: Profession, universityName: string)

  function PersonId(p: Person): int { p.identification }

  function PhoneId(ph: Phone): string { ph.number }

  function ProfessionId(pr: Profession): int { pr.identification }

  function StudyId(s: Study): (int, int) { (s.person.identification, s.profession.identification) }

  /** The phone with its number overwritten by the one given as the path parameter. */
  function PinNumber(ph: Phone, number: string): Phone { ph.(number := number) }

  /** The profession with its identification overwritten by the path parameter. */
  function PinProfession(pr: Profession, identification: int): Profession {
    pr.(identification := identification)
  }

  /** The study whose embedded person and profession carry the two path parameters. */
  function PinStudy(s: Study, personId: int, professionId: int): Study {
    s.(person := s.person.(identification := personId),
       profession := s.profession.(identification := professionId))
  }

  /** Whether a phone belongs to the person `personId`. */
  function OwnedBy(personId: int): Phone -> bool {
    (ph: Phone) => ph.personId == personId
  }
}
