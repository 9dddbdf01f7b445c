/** The Spring Data repositories behind the services. A table the services
    write to is a `Repository` object whose rows the JPA operations replace;
    the derived finder queries are functions of the rows. */
module Repositories {
  import opened Outcomes
  import opened Seqs
  import opened Tables
  import opened Text
  import opened Time
  import opened Models

  /** A table with a generated primary key. `key` reads the id of a row and
      `withId` stamps a generated id onto a new row. Generated ids start at 1,
      so id 0 stands for the `null` id of an entity that was never saved. */
  class Repository<T(==,!new)> {
    var rows: seq<T>
    var nextId: nat
    const key: T -> nat
    const withId: (T, nat) -> T

    ghost predicate Valid()
      reads this
    {
      UniqueKeys(rows, key) && 0 < nextId &&
      (forall i :: 0 <= i < |rows| ==> 0 < key(rows[i]) < nextId) &&
      (forall x, k :: key(withId(x, k)) == k)
    }

    constructor (key: T -> nat, withId: (T, nat) -> T)
      requires forall x, k :: key(withId(x, k)) == k
      ensures Valid() && rows == [] && nextId == 1
      ensures this.key == key && this.withId == withId
    {
      rows := [];
      nextId := 1;
      this.key := key;
      this.withId := withId;
    }

    /** The row `save(x)` stores: `x` itself when its id is already stored,
        otherwise `x` under the next generated id. */
    function SavedRow(x: T): T
      reads this
    {
      if HasKey(rows, key, key(x)) then x else withId(x, nextId)
    }

    /** The table after `save(x)`. */
    function RowsAfterSave(x: T): seq<T>
      reads this
    {
      if HasKey(rows, key, key(x)) then ReplaceByKey(rows, key, x) else rows + [withId(x, nextId)]
    }

    /** `save(entity)`: an entity whose id is already stored replaces that row
        in place; any other entity is inserted under the next generated id.
        The stored entity is returned, and it is then found under its id. */
    method Save(x: T) returns (saved: T)
      requires Valid()
      modifies this
      ensures Valid()
      ensures saved == old(SavedRow(x)) && rows == old(RowsAfterSave(x))
      ensures nextId == if old(HasKey(rows, key, key(x))) then old(nextId) else old(nextId) + 1
      ensures FindByKey(rows, key, key(saved)) == Some(saved)
    {
      if FindByKey(rows, key, key(x)).Some? {
        ReplaceByKeyFacts(rows, key, x);
        rows := ReplaceByKey(rows, key, x);
        saved := x;
      } else {
        saved := withId(x, nextId);
        rows := rows + [saved];
        nextId := nextId + 1;
        FindByKeyUnique(rows, key, |rows| - 1);
      }
    }

    /** `delete(entity)`: the row with the entity's id is removed; deleting an
        entity that is not stored changes nothing. */
    method Delete(x: T)
      requires Valid()
      modifies this
      ensures Valid()
      ensures rows == RemoveByKey(old(rows), key, key(x)) && nextId == old(nextId)
      ensures FindByKey(rows, key, key(x)) == None
    {
      RemoveByKeyFacts(rows, key, key(x));
      FilterKeepsUniqueKeys(rows, key, KeyOtherThan(key, key(x)));
      rows := RemoveByKey(rows, key, key(x));
    }

    /** A derived `deleteAllBy...` query: every row matching `p` is removed. */
    method DeleteWhere(p: T -> bool)
      requires Valid()
      modifies this
      ensures Valid()
      ensures rows == Filter(old(rows), Not(p)) && nextId == old(nextId)
      ensures forall i :: 0 <= i < |rows| ==> !p(rows[i])
    {
      FilterKeepsUniqueKeys(rows, key, Not(p));
      rows := Filter(rows, Not(p));
    }
  }

  function DoctorId(d: Doctor): nat { d.id }
  function DoctorWithId(d: Doctor, id: nat): Doctor { d.(id := id) }
  function AppointmentId(a: AppointmentRecord): nat { a.id }
  function AppointmentWithId(a: AppointmentRecord, id: nat): AppointmentRecord { a.(id := id) }

  /** The doctor table: a valid repository of doctors keyed by id. */
  ghost predicate IsDoctorTable(r: Repository<Doctor>)
    reads r
  {
    r.Valid() && r.key == DoctorId && r.withId == DoctorWithId
  }

  /** The appointment table: a valid repository of appointments keyed by id. */
  ghost predicate IsAppointmentTable(r: Repository<AppointmentRecord>)
    reads r
  {
    r.Valid() && r.key == AppointmentId && r.withId == AppointmentWithId
  }

  /** A new, empty doctor table. */
  method NewDoctorRepository() returns (r: Repository<Doctor>)
    ensures fresh(r) && IsDoctorTable(r) && r.rows == []
  {
    r := new Repository(DoctorId, DoctorWithId);
  }

  /** A new, empty appointment table. */
  method NewAppointmentRepository() returns (r: Repository<AppointmentRecord>)
    ensures fresh(r) && IsAppointmentTable(r) && r.rows == []
  {
    r := new Repository(AppointmentId, AppointmentWithId);
  }

  /** `DoctorRepository.findById`. */
  function FindDoctorById(doctors: seq<Doctor>, id: nat): Option<Doctor>
  {
    FindByKey(doctors, DoctorId, id)
  }

  /** `DoctorRepository.findByEmail`, a single-result query. */
  function FindDoctorByEmail(doctors: seq<Doctor>, email: string): Try<Option<Doctor>>
  {
    SingleResult(Filter(doctors, HasEmail(email)))
  }

  function HasEmail(email: string): Doctor -> bool
  {
    (d: Doctor) => d.email == email
  }

  /** The email lookup finds nothing exactly when no stored doctor has the email. */
  lemma FindDoctorByEmailNone(doctors: seq<Doctor>, email: string)
    ensures FindDoctorByEmail(doctors, email) == Returns(None) <==>
      forall i :: 0 <= i < |doctors| ==> doctors[i].email != email
  {
    if forall i :: 0 <= i < |doctors| ==> doctors[i].email != email {
      FilterNone(doctors, HasEmail(email));
    }
  }

  /** A doctor the email lookup returns is stored and has that email. */
  lemma FindDoctorByEmailSome(doctors: seq<Doctor>, email: string)
    requires FindDoctorByEmail(doctors, email).Returns? && FindDoctorByEmail(doctors, email).value.Some?
    ensures FindDoctorByEmail(doctors, email).value.value in doctors
    ensures FindDoctorByEmail(doctors, email).value.value.email == email
  {
    var d := FindDoctorByEmail(doctors, email).value.value;
    assert Filter(doctors, HasEmail(email)) == [d];
    FilterMember(doctors, HasEmail(email), d);
  }

  /** With unique emails, the email lookup finds the one doctor with that email. */
  lemma FindDoctorByEmailUnique(doctors: seq<Doctor>, i: nat)
    requires i < |doctors|
    requires forall j :: 0 <= j < |doctors| && j != i ==> doctors[j].email != doctors[i].email
    ensures FindDoctorByEmail(doctors, doctors[i].email) == Returns(Some(doctors[i]))
  {
    FilterSingle(doctors, HasEmail(doctors[i].email), i);
  }

  /** `DoctorRepository.findByNameLike(name)`: the pattern semantics of the
      `LIKE` query is not part of this model, so it is the parameter `like`. */
  function FindByNameLike(doctors: seq<Doctor>, like: (string, string) -> bool, name: string): seq<Doctor>
  {
    Filter(doctors, (d: Doctor) => like(name, d.name))
  }

  /** `findByNameContainingIgnoreCaseAndSpecialtyIgnoreCase(name, specialty)`. */
  function FindByNameAndSpecialty(doctors: seq<Doctor>, name: string, specialty: string): seq<Doctor>
  {
    Filter(doctors, (d: Doctor) => ContainsIgnoreCase(d.name, name) && EqualsIgnoreCase(d.specialty, specialty))
  }

  /** `findBySpecialtyIgnoreCase(specialty)`. */
  function FindBySpecialty(doctors: seq<Doctor>, specialty: string): seq<Doctor>
  {
    Filter(doctors, (d: Doctor) => EqualsIgnoreCase(d.specialty, specialty))
  }

  /** `AppointmentRepository.findById`. */
  function FindAppointmentById(appointments: seq<AppointmentRecord>, id: nat): Option<AppointmentRecord>
  {
    FindByKey(appointments, AppointmentId, id)
  }

  /** `findByDoctorIdAndAppointmentTimeBetween(doctorId, start, end)`, with
      both ends included. */
  function FindByDoctorAndTimeBetween(appointments: seq<AppointmentRecord>, doctorId: nat,
                                      start: LocalDateTime, end: LocalDateTime): seq<AppointmentRecord>
  {
    Filter(appointments, (a: AppointmentRecord) => Matches(a, doctorId, start, end))
  }

  predicate Matches(a: AppointmentRecord, doctorId: nat, start: LocalDateTime, end: LocalDateTime)
  {
    a.doctorId == doctorId && InRange(a.appointmentTime, start, end)
  }

  /** The appointments of one doctor on one date, queried with the window
      `[date 00:00:00, date 23:59:59]`. */
  function AppointmentsOnDay(appointments: seq<AppointmentRecord>, doctorId: nat, date: LocalDate): seq<AppointmentRecord>
  {
    FindByDoctorAndTimeBetween(appointments, doctorId, AtStartOfDay(date), AtTime(date, 23, 59, 59))
  }

  lemma MatchesOnDay(a: AppointmentRecord, doctorId: nat, date: LocalDate)
    ensures Matches(a, doctorId, AtStartOfDay(date), AtTime(date, 23, 59, 59)) <==>
      a.doctorId == doctorId && a.appointmentTime.date == date
  {
    var t := a.appointmentTime;
    assert WithinDay(t, date) <==> t.date == date by {
      WithinDayIffSameDate(t, date);
    }
  }

  /** The day query returns exactly the doctor's appointments dated `date`. */
  lemma AppointmentsOnDayMember(appointments: seq<AppointmentRecord>, doctorId: nat, date: LocalDate, a: AppointmentRecord)
    ensures a in AppointmentsOnDay(appointments, doctorId, date) <==>
      a in appointments && a.doctorId == doctorId && a.appointmentTime.date == date
  {
    var start, end := AtStartOfDay(date), AtTime(date, 23, 59, 59);
    FilterMember(appointments, (a: AppointmentRecord) => Matches(a, doctorId, start, end), a);
    MatchesOnDay(a, doctorId, date);
  }

  /** `PatientRepository.findByEmail`, a single-result query. */
  function FindPatientByEmail(patients: seq<Patient>, email: string): Try<Option<Patient>>
  {
    SingleResult(Filter(patients, (p: Patient) => p.email == email))
  }

  function PatientId(p: Patient): nat { p.id }

  /** The stored patient an appointment's patient reference resolves to. */
  function FindPatientById(patients: seq<Patient>, id: nat): Option<Patient>
  {
    FindByKey(patients, PatientId, id)
  }

  /** `PatientRepository.findByEmailOrPhone(email, phone)`. */
  function FindPatientByEmailOrPhone(patients: seq<Patient>, email: string, phone: string): Try<Option<Patient>>
  {
    SingleResult(Filter(patients, (p: Patient) => p.email == email || p.phone == phone))
  }

  /** `AdminRepository.findByUsername`. */
  function FindAdminByUsername(admins: seq<Admin>, username: string): Try<Option<Admin>>
  {
    SingleResult(Filter(admins, (a: Admin) => a.username == username))
  }
}
