# personapp use-case layer in Dafny

This project models the application layer of the personapp service. That layer has four use cases: Person, Phone, Profession and Study. A Study records that a person studied a profession. Each use case sits between inbound adapters and a persistence port. It decides success or failure in one way: it first probes the port with `findById`, where `null` means the record is absent. It then either delegates to `save`/`delete`, returns the record, or raises `NoExistException`.

## Layout

- `outcomes.dfy` (module `Outcomes`): `Option`, which stands for the `null` a lookup may return. `Result`, which is `Ok(value)` or `NotFound`; `NotFound` stands for `NoExistException`. `Step`, which pairs a result with the store contents after the call.
- `domain.dfy` (module `Domain`): the four entities and their identities.
  - Person is keyed by its `cc`. The entity calls this field `identification`, matching `study.getPerson().getIdentification()`.
  - Phone is keyed by `number`.
  - Profession is keyed by `identification`.
  - Study is keyed by the pair (person id, profession id).
  - The module also holds the identity pinning that the `edit` operations perform.
- `store.dfy` (module `Store`): the persistence port, written as one generic class `Port<K, E>`.
  - It holds a `map` from identity to record and the keys in first-insertion order.
  - Its invariant `Valid()` says every record sits under its own identity and each key is listed once.
  - `Save` is an upsert by identity. `Delete` removes by identity and says whether a record was there. `FindById` answers `None` for a missing key. `FindAll` enumerates. `FindWhere` filters; it models `findByPersonId`.
  - The port implementations are not part of this model. The upsert reading of `save` is the store's contract, stated in `Port.Save`.
- `person_use_case.dfy`, `phone_use_case.dfy`, `profession_use_case.dfy`, `study_use_case.dfy` (modules `Persons`, `Phones`, `Professions`, `Studies`): each file mirrors one use-case class.
  - Each has a class holding the swappable `persistence` port, with one method per operation.
  - The file also defines, per operation, a specification function on the table of records. `CreateSpec`, `EditSpec`, `DropSpec` and `FindOneSpec` give the result and the table afterwards.
  - Each mutating method is proved to match its specification function on the port's records and to keep the port valid.
  - Each read-only method is proved to return what its specification function gives. Read-only methods change nothing: they have no `modifies` clause.
  - Lemmas about the specification functions state what the source promises across calls.

## Model

| member | source | states |
|---|---|---|
| Store.Port.Save | application/src/main/java/co/edu/javeriana/as/personapp/application/port/out/PhoneOutputPort.java:11 | save is an upsert: the record is stored under its own identity, replacing any record with that identity; the record is returned; a new key is appended to the enumeration order |
| Store.Port.Delete | application/src/main/java/co/edu/javeriana/as/personapp/application/port/out/PhoneOutputPort.java:13 | delete removes exactly the given key and answers whether a record was stored under it |
| Store.Port.FindById | application/src/main/java/co/edu/javeriana/as/personapp/application/port/out/PhoneOutputPort.java:15 | the lookup is absent (null) exactly when no record has that key, and otherwise is the stored record |
| Store.Port.FindAll | application/src/main/java/co/edu/javeriana/as/personapp/application/port/out/PhoneOutputPort.java:19 | the listing has exactly one entry per stored record: its length is the number of records, every stored record is in it, and it holds nothing else |
| Store.Port.FindWhere | application/src/main/java/co/edu/javeriana/as/personapp/application/port/out/PhoneOutputPort.java:17 | the filtered listing holds exactly the stored records the filter accepts |
| Persons.PersonUseCase.constructor | application/src/main/java/co/edu/javeriana/as/personapp/application/usecase/PersonUseCase.java:30-32 | the use case uses the injected port |
| Persons.PersonUseCase.SetPersistence | application/src/main/java/co/edu/javeriana/as/personapp/application/usecase/PersonUseCase.java:38-40 | the port is replaced by the given one |
| Persons.PersonUseCase.Create | application/src/main/java/co/edu/javeriana/as/personapp/application/usecase/PersonUseCase.java:46-49 | create always saves, with no existence probe: the table afterwards is the old one with the person stored under its cc, and the person is returned |
| Persons.PersonUseCase.Edit | application/src/main/java/co/edu/javeriana/as/personapp/application/usecase/PersonUseCase.java:56-63 | edit matches EditSpec: NotFound with the table unchanged when cc is absent; otherwise the payload is saved as given, under its own id |
| Persons.PersonUseCase.Drop | application/src/main/java/co/edu/javeriana/as/personapp/application/usecase/PersonUseCase.java:70-77 | drop matches DropSpec: NotFound with nothing changed when cc is absent; otherwise cc is deleted and the port's answer (true) is returned |
| Persons.PersonUseCase.FindAll | application/src/main/java/co/edu/javeriana/as/personapp/application/usecase/PersonUseCase.java:83-86 | findAll is the port's listing unchanged; every stored person is in it, and each listed person is the one findOne gives for its cc |
| Persons.PersonUseCase.FindOne | application/src/main/java/co/edu/javeriana/as/personapp/application/usecase/PersonUseCase.java:93-100 | findOne returns the stored person for cc, or NotFound when there is none |
| Persons.PersonUseCase.Count | application/src/main/java/co/edu/javeriana/as/personapp/application/usecase/PersonUseCase.java:106-108 | count equals the length of findAll, which is the number of stored persons |
| Persons.PersonUseCase.GetPhones | application/src/main/java/co/edu/javeriana/as/personapp/application/usecase/PersonUseCase.java:115-121 | getPhones gives the phone list of the stored person, or NotFound when cc is absent |
| Persons.PersonUseCase.GetStudies | application/src/main/java/co/edu/javeriana/as/personapp/application/usecase/PersonUseCase.java:128-134 | getStudies gives the study list of the stored person, or NotFound when cc is absent |
| Persons.CreateIsLastWriteWins | application/src/main/java/co/edu/javeriana/as/personapp/application/usecase/PersonUseCase.java:46-49 | two creates with the same cc both succeed, and findOne then returns the later person |
| Persons.EditSucceedsIffPresent | application/src/main/java/co/edu/javeriana/as/personapp/application/usecase/PersonUseCase.java:58-62 | edit succeeds if and only if cc is stored; on failure the table is unchanged; on success the payload is stored under its own id |
| Persons.EditDoesNotPinIdentity | application/src/main/java/co/edu/javeriana/as/personapp/application/usecase/PersonUseCase.java:59-60 | cc is not pinned: a payload with a different id leaves the person under cc as it was and is found under its own id |
| Persons.DropSucceedsIffPresent | application/src/main/java/co/edu/javeriana/as/personapp/application/usecase/PersonUseCase.java:72-76 | drop answers Ok(true) if and only if cc is stored, else NotFound with the table unchanged; afterwards cc is absent and every other cc looks up as before |
| Persons.FindOneIffPresent | application/src/main/java/co/edu/javeriana/as/personapp/application/usecase/PersonUseCase.java:95-99 | findOne succeeds if and only if cc is stored, and then yields exactly the stored person |
| Persons.ListsRequirePerson | application/src/main/java/co/edu/javeriana/as/personapp/application/usecase/PersonUseCase.java:115-134 | for a missing person, getPhones and getStudies fail and never return an empty list; for a present person they return that person's phoneNumbers and studies fields |
| Phones.PhoneUseCase.constructor | application/src/main/java/co/edu/javeriana/as/personapp/application/usecase/PhoneUseCase.java:27-29 | the use case uses the injected port |
| Phones.PhoneUseCase.SetPersistence | application/src/main/java/co/edu/javeriana/as/personapp/application/usecase/PhoneUseCase.java:35-37 | the port is replaced by the given one |
| Phones.PhoneUseCase.Create | application/src/main/java/co/edu/javeriana/as/personapp/application/usecase/PhoneUseCase.java:44-49 | create matches CreateSpec: it saves only when no phone has that number; otherwise NotFound with the table unchanged |
| Phones.PhoneUseCase.Edit | application/src/main/java/co/edu/javeriana/as/personapp/application/usecase/PhoneUseCase.java:56-62 | edit matches EditSpec: NotFound with the table unchanged when number is absent; otherwise the payload is saved with its number overwritten by the path number |
| Phones.PhoneUseCase.Drop | application/src/main/java/co/edu/javeriana/as/personapp/application/usecase/PhoneUseCase.java:69-74 | drop matches DropSpec: NotFound with nothing changed when number is absent; otherwise the phone is deleted and true is returned |
| Phones.PhoneUseCase.FindAll | application/src/main/java/co/edu/javeriana/as/personapp/application/usecase/PhoneUseCase.java:80-83 | findAll is the port's find() unchanged; every stored phone is in it, and each listed phone is the one findOne gives for its number |
| Phones.PhoneUseCase.FindOne | application/src/main/java/co/edu/javeriana/as/personapp/application/usecase/PhoneUseCase.java:90-96 | findOne returns the stored phone for number, or NotFound |
| Phones.PhoneUseCase.Count | application/src/main/java/co/edu/javeriana/as/personapp/application/usecase/PhoneUseCase.java:102-104 | count equals the length of findAll, which is the number of stored phones |
| Phones.PhoneUseCase.GetPhonesOfPerson | application/src/main/java/co/edu/javeriana/as/personapp/application/usecase/PhoneUseCase.java:111-117 | never fails and never checks that the person exists; it returns the port's findByPersonId listing as it is, possibly empty, which holds exactly the stored phones whose owner is personId |
| Phones.CreateSucceedsIffAbsent | application/src/main/java/co/edu/javeriana/as/personapp/application/usecase/PhoneUseCase.java:45-48 | create succeeds if and only if the number is new; otherwise the table is unchanged; on success the phone is added under its number |
| Phones.SecondCreateRejected | application/src/main/java/co/edu/javeriana/as/personapp/application/usecase/PhoneUseCase.java:44-49 | after a successful create, a second create with the same number is rejected with the table unchanged; the first phone stays and the store grew by exactly one |
| Phones.EditSucceedsIffPresent | application/src/main/java/co/edu/javeriana/as/personapp/application/usecase/PhoneUseCase.java:57-61 | edit succeeds if and only if the number is stored; on failure the table is unchanged |
| Phones.EditPinsNumber | application/src/main/java/co/edu/javeriana/as/personapp/application/usecase/PhoneUseCase.java:57-59 | after a successful edit the saved phone carries the path number and is found under it; the payload's own number, when different, looks up as before; no key is added or removed |
| Phones.DropSucceedsIffPresent | application/src/main/java/co/edu/javeriana/as/personapp/application/usecase/PhoneUseCase.java:70-73 | drop answers Ok(true) if and only if the number is stored, else NotFound with the table unchanged; afterwards the number is absent and every other number looks up as before |
| Phones.FindOneIffPresent | application/src/main/java/co/edu/javeriana/as/personapp/application/usecase/PhoneUseCase.java:91-95 | findOne succeeds if and only if the number is stored, and then yields exactly the stored phone |
| Professions.ProfessionUseCase.constructor | application/src/main/java/co/edu/javeriana/as/personapp/application/usecase/ProfessionUseCase.java:28-30 | the use case uses the injected port |
| Professions.ProfessionUseCase.SetPersistence | application/src/main/java/co/edu/javeriana/as/personapp/application/usecase/ProfessionUseCase.java:36-38 | the port is replaced by the given one |
| Professions.ProfessionUseCase.Create | application/src/main/java/co/edu/javeriana/as/personapp/application/usecase/ProfessionUseCase.java:44-47 | create always saves, with no duplicate check: the profession is stored under its id and returned |
| Professions.ProfessionUseCase.Edit | application/src/main/java/co/edu/javeriana/as/personapp/application/usecase/ProfessionUseCase.java:55-63 | edit matches EditSpec: NotFound with the table unchanged when the id is absent; otherwise the payload is saved with its identification overwritten by the path id |
| Professions.ProfessionUseCase.Drop | application/src/main/java/co/edu/javeriana/as/personapp/application/usecase/ProfessionUseCase.java:70-77 | drop matches DropSpec: NotFound with nothing changed when the id is absent; otherwise the profession is deleted and true is returned |
| Professions.ProfessionUseCase.FindAll | application/src/main/java/co/edu/javeriana/as/personapp/application/usecase/ProfessionUseCase.java:83-86 | findAll is the port's findAll() unchanged; every stored profession is in it, and each listed one is what findOne gives for its id |
| Professions.ProfessionUseCase.FindOne | application/src/main/java/co/edu/javeriana/as/personapp/application/usecase/ProfessionUseCase.java:93-100 | findOne returns the stored profession for the id, or NotFound |
| Professions.ProfessionUseCase.Count | application/src/main/java/co/edu/javeriana/as/personapp/application/usecase/ProfessionUseCase.java:106-109 | count equals the length of findAll, which is the number of stored professions |
| Professions.CreateIsLastWriteWins | application/src/main/java/co/edu/javeriana/as/personapp/application/usecase/ProfessionUseCase.java:44-47 | two creates with the same id both succeed, and findOne then returns the later profession |
| Professions.EditSucceedsIffPresent | application/src/main/java/co/edu/javeriana/as/personapp/application/usecase/ProfessionUseCase.java:57-62 | edit succeeds if and only if the id is stored; on failure the table is unchanged |
| Professions.EditPinsIdentification | application/src/main/java/co/edu/javeriana/as/personapp/application/usecase/ProfessionUseCase.java:58-60 | after a successful edit the saved profession carries the path id, whatever the payload held, and is found under it; the payload's own id, when different, looks up as before |
| Professions.DropSucceedsIffPresent | application/src/main/java/co/edu/javeriana/as/personapp/application/usecase/ProfessionUseCase.java:72-76 | drop answers Ok(true) if and only if the id is stored, else NotFound with the table unchanged; afterwards the id is absent and every other id looks up as before |
| Professions.FindOneIffPresent | application/src/main/java/co/edu/javeriana/as/personapp/application/usecase/ProfessionUseCase.java:95-99 | findOne succeeds if and only if the id is stored, and then yields exactly the stored profession |
| Studies.StudyUseCase.constructor | application/src/main/java/co/edu/javeriana/as/personapp/application/usecase/StudyUseCase.java:27-29 | the use case uses the injected port |
| Studies.StudyUseCase.SetPersistence | application/src/main/java/co/edu/javeriana/as/personapp/application/usecase/StudyUseCase.java:35-37 | the port is replaced by the given one |
| Studies.StudyUseCase.Create | application/src/main/java/co/edu/javeriana/as/personapp/application/usecase/StudyUseCase.java:44-51 | create matches CreateSpec: it saves only when no study exists for the payload's (person id, profession id); otherwise NotFound with the table unchanged |
| Studies.StudyUseCase.Edit | application/src/main/java/co/edu/javeriana/as/personapp/application/usecase/StudyUseCase.java:58-67 | edit matches EditSpec: NotFound with the table unchanged when the pair is absent; otherwise the payload is saved with both embedded ids overwritten by the path pair |
| Studies.StudyUseCase.Drop | application/src/main/java/co/edu/javeriana/as/personapp/application/usecase/StudyUseCase.java:74-80 | drop matches DropSpec: NotFound with nothing changed when the pair is absent; otherwise the study is deleted and true is returned |
| Studies.StudyUseCase.FindAll | application/src/main/java/co/edu/javeriana/as/personapp/application/usecase/StudyUseCase.java:86-89 | findAll is the port's find() unchanged; every stored study is in it, and each listed study is what findOne gives for its pair |
| Studies.StudyUseCase.FindOne | application/src/main/java/co/edu/javeriana/as/personapp/application/usecase/StudyUseCase.java:96-103 | findOne returns the stored study for the pair, or NotFound |
| Studies.StudyUseCase.Count | application/src/main/java/co/edu/javeriana/as/personapp/application/usecase/StudyUseCase.java:109-111 | count equals the length of findAll, which is the number of stored studies |
| Studies.CreateSucceedsIffAbsent | application/src/main/java/co/edu/javeriana/as/personapp/application/usecase/StudyUseCase.java:45-50 | create succeeds if and only if the pair is new; otherwise the table is unchanged; on success the study is added under its pair |
| Studies.SecondCreateRejected | application/src/main/java/co/edu/javeriana/as/personapp/application/usecase/StudyUseCase.java:44-51 | after a successful create, a second create for the same pair is rejected with the table unchanged; the first study stays and the store grew by exactly one |
| Studies.EditSucceedsIffPresent | application/src/main/java/co/edu/javeriana/as/personapp/application/usecase/StudyUseCase.java:59-66 | edit succeeds if and only if the pair is stored; on failure the table is unchanged |
| Studies.EditPinsPair | application/src/main/java/co/edu/javeriana/as/personapp/application/usecase/StudyUseCase.java:60-63 | after a successful edit the saved study has person id = personId and profession id = professionId, whatever the payload held, keeps every other field of the study, of its person and of its profession, and is found under the pair; the payload's own pair, when different, looks up as before |
| Studies.DropSucceedsIffPresent | application/src/main/java/co/edu/javeriana/as/personapp/application/usecase/StudyUseCase.java:75-79 | drop answers Ok(true) if and only if the pair is stored, else NotFound with the table unchanged; afterwards the pair is absent and every other pair looks up as before |
| Studies.FindOneIffPresent | application/src/main/java/co/edu/javeriana/as/personapp/application/usecase/StudyUseCase.java:97-102 | findOne succeeds if and only if the pair is stored, and then yields exactly the stored study |

## Left out

- Logging (the slf4j `debug`/`info`/`warn` calls, including the warning in `getPhonesOfPerson`): it has no effect on results or state.
- Spring wiring (`@UseCase`, `@Qualifier`, the choice of the MariaDB adapters): framework configuration. The model takes the port as a constructor argument.
- The concrete persistence adapters: they are not part of this model. Every port is the abstract `Store.Port`.
  - Its `save` is assumed to be an upsert by identity and its `delete` a removal by identity.
  - The Person and Study port interfaces are not part of this model either. Their operations are inferred from how the use cases call them; the Study port's `findById`/`delete` take the pair.
- Store.Port.FindAll: lists records in first-insertion order. The port interfaces declare a plain `List` with no ordering promise (PhoneOutputPort.java:19, ProfessionOutputPort.java:16), so callers should rely only on the contents, which is all the use-case contracts state.
- Concurrency: the probe (`findById`) and the action (`save`/`delete`) are not atomic in the source. Each use-case call is modelled as one sequential step, so races between callers are not captured.
- Exception messages: every `NoExistException` is the single `NotFound` result. The model does not separate "absent" from "already exists", because the source does not.
- In-place payload mutation: `edit` calls `setNumber`/`setIdentification` on the caller's object, and for Study on the embedded person and profession objects. The model returns a pinned copy instead. Aliasing, where the caller or other holders of those objects see the change, is not captured.
- `null` values are not modelled. Where the use case dereferences the payload, a `null` payload or a `null` embedded person/profession throws `NullPointerException`: Phone create and edit (PhoneUseCase.java:45, 58), Profession edit (ProfessionUseCase.java:59), Study create and edit (StudyUseCase.java:45, 61-62). Person create and edit (PersonUseCase.java:48, 60) and Profession create (ProfessionUseCase.java:46) pass a `null` payload straight to `save`, and what happens then depends on the adapter, which is not part of this model. A `null` list from `findByPersonId` is not modelled either: the store always returns a list, possibly empty.
- Person entity internals: lazy loading of `phoneNumbers`/`studies` is not modelled; they are plain sequence fields of the stored record. Fields other than identities and owner ids (names, company, university) stand for the payload; dates and other attributes are not modelled.
- Integer widths: `Long` cc, `Integer` ids and the `Integer` result of `count()` are unbounded integers here. The source does no arithmetic on them; only a store holding more than 2^31-1 records would behave differently.
