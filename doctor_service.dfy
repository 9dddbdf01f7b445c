/** `DoctorService`: a doctor's free slots on a date, the doctor search
    filters, and adding, updating and deleting doctors with their result
    codes (1 done, -1 rejected, 0 failed). */
module DoctorService {
  import opened Outcomes
  import opened Seqs
  import opened Tables
  import opened Text
  import opened Time
  import opened Models
  import opened Repositories

  // ---------------------------------------------------------------------
  // Availability

  /** The `HH:MM` labels of the doctor's appointments inside the window of `date`. */
  function BookedLabels(appointments: seq<AppointmentRecord>, doctorId: nat, date: LocalDate): set<string>
  {
    set a | a in AppointmentsOnDay(appointments, doctorId, date) :: Label(a.appointmentTime.time)
  }

  /** The reference reading of "taken": some appointment of the doctor on that
      date starts at a time whose label is `slot`. */
  predicate Taken(appointments: seq<AppointmentRecord>, doctorId: nat, date: LocalDate, slot: string)
  {
    exists a :: a in appointments && a.doctorId == doctorId && a.appointmentTime.date == date &&
      Label(a.appointmentTime.time) == slot
  }

  function NotIn(booked: set<string>): string -> bool
  {
    (slot: string) => slot !in booked
  }

  /** `getDoctorAvailability(doctorId, date)`: the doctor's published slots
      without the booked labels, in published order; an unknown doctor makes
      `Optional.get` raise. */
  function DoctorAvailability(doctors: seq<Doctor>, appointments: seq<AppointmentRecord>,
                              doctorId: nat, date: LocalDate): (r: Try<seq<string>>)
    ensures r.Throws? <==> FindDoctorById(doctors, doctorId).None?
  {
    match FindDoctorById(doctors, doctorId)
    case None => Throws
    case Some(d) => Returns(Filter(d.availableTimes, NotIn(BookedLabels(appointments, doctorId, date))))
  }

  lemma BookedLabelsMember(appointments: seq<AppointmentRecord>, doctorId: nat, date: LocalDate, slot: string)
    ensures slot in BookedLabels(appointments, doctorId, date) <==> Taken(appointments, doctorId, date, slot)
  {
    if slot in BookedLabels(appointments, doctorId, date) {
      var a :| a in AppointmentsOnDay(appointments, doctorId, date) && Label(a.appointmentTime.time) == slot;
      AppointmentsOnDayMember(appointments, doctorId, date, a);
    }
    if Taken(appointments, doctorId, date, slot) {
      var a :| a in appointments && a.doctorId == doctorId && a.appointmentTime.date == date &&
        Label(a.appointmentTime.time) == slot;
      AppointmentsOnDayMember(appointments, doctorId, date, a);
    }
  }

  /** A slot is offered exactly when the doctor publishes it and no
      appointment of the doctor that day carries its label. */
  lemma AvailabilityMember(doctors: seq<Doctor>, appointments: seq<AppointmentRecord>,
                           doctorId: nat, date: LocalDate, slot: string)
    requires FindDoctorById(doctors, doctorId).Some?
    ensures slot in DoctorAvailability(doctors, appointments, doctorId, date).value <==>
      slot in FindDoctorById(doctors, doctorId).value.availableTimes &&
      !Taken(appointments, doctorId, date, slot)
  {
    var d := FindDoctorById(doctors, doctorId).value;
    FilterMember(d.availableTimes, NotIn(BookedLabels(appointments, doctorId, date)), slot);
    BookedLabelsMember(appointments, doctorId, date, slot);
  }

  /** The offered slots keep the published order: they are a subsequence of
      the published list. */
  lemma AvailabilityIsSubsequence(doctors: seq<Doctor>, appointments: seq<AppointmentRecord>,
                                  doctorId: nat, date: LocalDate)
    requires FindDoctorById(doctors, doctorId).Some?
    ensures IsSubsequence(DoctorAvailability(doctors, appointments, doctorId, date).value,
                          FindDoctorById(doctors, doctorId).value.availableTimes)
  {
    var d := FindDoctorById(doctors, doctorId).value;
    FilterIsSubsequence(d.availableTimes, NotIn(BookedLabels(appointments, doctorId, date)));
  }

  /** With no appointment of the doctor that day, every published slot is offered. */
  lemma AvailabilityWithoutBookings(doctors: seq<Doctor>, appointments: seq<AppointmentRecord>,
                                    doctorId: nat, date: LocalDate)
    requires FindDoctorById(doctors, doctorId).Some?
    requires forall a :: a in appointments ==> a.doctorId != doctorId || a.appointmentTime.date != date
    ensures DoctorAvailability(doctors, appointments, doctorId, date) ==
      Returns(FindDoctorById(doctors, doctorId).value.availableTimes)
  {
    var d := FindDoctorById(doctors, doctorId).value;
    var booked := BookedLabels(appointments, doctorId, date);
    forall slot | slot in d.availableTimes ensures NotIn(booked)(slot) {
      BookedLabelsMember(appointments, doctorId, date, slot);
    }
    FilterAll(d.availableTimes, NotIn(booked));
  }

  /** A doctor publishing 09:00, 10:00 and 11:00 with a 10:00 appointment on
      the date is offered 09:00 and 11:00. */
  lemma AvailabilityExample()
    ensures
      var doctor := Doctor(7, "Ada", "ada@clinic.org", "555", "Cardiology", ["09:00", "10:00", "11:00"]);
      var visit := AppointmentRecord(3, 7, 5, LocalDateTime(100, LocalTime(10, 0, 0)), Scheduled);
      DoctorAvailability([doctor], [visit], 7, 100) == Returns(["09:00", "11:00"])
  {
    var doctor := Doctor(7, "Ada", "ada@clinic.org", "555", "Cardiology", ["09:00", "10:00", "11:00"]);
    var visit := AppointmentRecord(3, 7, 5, LocalDateTime(100, LocalTime(10, 0, 0)), Scheduled);
    LabelOfTen();
    assert "10:00"[1] != "09:00"[1] && "10:00"[1] != "11:00"[1];
    assert visit in [visit];
    var p := NotIn(BookedLabels([visit], 7, 100));
    SlotFree([visit], 7, 100, "09:00");
    SlotFree([visit], 7, 100, "11:00");
    SlotBooked([visit], 7, 100, "10:00");
    FilterThree("09:00", "10:00", "11:00", p);
  }

  lemma SlotFree(appointments: seq<AppointmentRecord>, doctorId: nat, date: LocalDate, slot: string)
    requires !Taken(appointments, doctorId, date, slot)
    ensures NotIn(BookedLabels(appointments, doctorId, date))(slot)
  {
    BookedLabelsMember(appointments, doctorId, date, slot);
  }

  lemma SlotBooked(appointments: seq<AppointmentRecord>, doctorId: nat, date: LocalDate, slot: string)
    requires Taken(appointments, doctorId, date, slot)
    ensures !NotIn(BookedLabels(appointments, doctorId, date))(slot)
  {
    BookedLabelsMember(appointments, doctorId, date, slot);
  }

  lemma FilterThree(a: string, b: string, c: string, p: string -> bool)
    requires p(a) && !p(b) && p(c)
    ensures Filter([a, b, c], p) == [a, c]
  {
    var s := [a, b, c];
    assert s[1..] == [b, c] && s[1..][1..] == [c] && s[1..][1..][1..] == [];
    assert Filter([c], p) == [c] + Filter([], p);
    assert Filter([b, c], p) == Filter([c], p);
  }

  lemma LabelOfTen()
    ensures Label(LocalTime(10, 0, 0)) == "10:00"
  {
    assert TwoDigits(10) == "10" && TwoDigits(0) == "00";
  }

  // ---------------------------------------------------------------------
  // Morning / afternoon filter

  /** `Integer.parseInt(slot.split(":")[0])`. */
  function SlotHour(slot: string): Option<int>
  {
    ParseInt(BeforeColon(slot))
  }

  /** Whether an hour belongs to the bucket: before noon for `AM`, from noon
      on for `PM`, either compared ignoring case; no hour is in any other bucket. */
  predicate InBucket(hour: int, amOrPm: string)
  {
    (EqualsIgnoreCase("AM", amOrPm) && hour < 12) || (EqualsIgnoreCase("PM", amOrPm) && hour >= 12)
  }

  /** `slots.stream().anyMatch(...)`: the slots are tried in order and the
      first slot in the bucket ends the search; a slot whose hour does not
      parse before that raises `NumberFormatException` (`None`). */
  function AnySlotInBucket(slots: seq<string>, amOrPm: string): Option<bool>
    decreases |slots|
  {
    if slots == [] then Some(false)
    else match SlotHour(slots[0])
      case None => None
      case Some(h) => if InBucket(h, amOrPm) then Some(true) else AnySlotInBucket(slots[1..], amOrPm)
  }

  function HasSlotInBucket(amOrPm: string): Doctor -> bool
  {
    (d: Doctor) => AnySlotInBucket(d.availableTimes, amOrPm) == Some(true)
  }

  /** `filterDoctorByTime(doctors, amOrPm)`: the doctors with a slot in the
      bucket, in order; an exception raised while testing any doctor escapes. */
  function FilterDoctorByTime(doctors: seq<Doctor>, amOrPm: string): (r: Try<seq<Doctor>>)
    ensures r.Throws? <==> exists i :: 0 <= i < |doctors| && AnySlotInBucket(doctors[i].availableTimes, amOrPm).None?
    ensures r.Returns? ==> r.value == Filter(doctors, HasSlotInBucket(amOrPm))
    decreases |doctors|
  {
    if doctors == [] then Returns([])
    else
      var rest := FilterDoctorByTime(doctors[1..], amOrPm);
      assert forall i :: 1 <= i < |doctors| ==> doctors[i] == doctors[1..][i - 1];
      match AnySlotInBucket(doctors[0].availableTimes, amOrPm)
      case None => Throws
      case Some(keep) =>
        if rest.Throws? then Throws
        else Returns((if keep then [doctors[0]] else []) + rest.value)
  }

  /** Every slot's hour parses: the slots are well-formed `HH:MM` labels. */
  predicate SlotsParse(d: Doctor)
  {
    forall i :: 0 <= i < |d.availableTimes| ==> SlotHour(d.availableTimes[i]).Some?
  }

  /** The reference reading of the time filter: some slot's hour is in the bucket. */
  predicate HasSlotIn(d: Doctor, amOrPm: string)
  {
    exists i :: 0 <= i < |d.availableTimes| && SlotHour(d.availableTimes[i]).Some? &&
      InBucket(SlotHour(d.availableTimes[i]).value, amOrPm)
  }

  /** On well-formed slots the short-circuit search answers exactly whether
      some slot is in the bucket. */
  lemma {:induction false} AnySlotInBucketExact(slots: seq<string>, amOrPm: string)
    requires forall i :: 0 <= i < |slots| ==> SlotHour(slots[i]).Some?
    ensures AnySlotInBucket(slots, amOrPm) ==
      Some(exists i :: 0 <= i < |slots| && InBucket(SlotHour(slots[i]).value, amOrPm))
    decreases |slots|
  {
    if slots != [] {
      AnySlotInBucketExact(slots[1..], amOrPm);
      assert forall i :: 1 <= i < |slots| ==> slots[i] == slots[1..][i - 1];
    }
  }

  /** The search raises only when some slot's hour does not parse. */
  lemma {:induction false} AnySlotInBucketRaises(slots: seq<string>, amOrPm: string)
    requires AnySlotInBucket(slots, amOrPm).None?
    ensures exists i :: 0 <= i < |slots| && SlotHour(slots[i]).None?
    decreases |slots|
  {
    if SlotHour(slots[0]).Some? {
      AnySlotInBucketRaises(slots[1..], amOrPm);
      var i :| 0 <= i < |slots[1..]| && SlotHour(slots[1..][i]).None?;
      assert slots[1..][i] == slots[i + 1];
    }
  }

  /** No slot is in a bucket other than `AM` or `PM`. */
  lemma {:induction false} AnySlotInOtherBucket(slots: seq<string>, amOrPm: string)
    requires !EqualsIgnoreCase("AM", amOrPm) && !EqualsIgnoreCase("PM", amOrPm)
    ensures AnySlotInBucket(slots, amOrPm) != Some(true)
    decreases |slots|
  {
    if slots != [] {
      AnySlotInOtherBucket(slots[1..], amOrPm);
    }
  }

  /** With well-formed slots, the time filter keeps exactly the doctors with
      some slot in the bucket. */
  lemma FilterDoctorByTimeExact(doctors: seq<Doctor>, amOrPm: string)
    requires forall d :: d in doctors ==> SlotsParse(d)
    ensures FilterDoctorByTime(doctors, amOrPm) == Returns(Filter(doctors, (d: Doctor) => HasSlotIn(d, amOrPm)))
  {
    forall d | d in doctors
      ensures HasSlotInBucket(amOrPm)(d) == HasSlotIn(d, amOrPm)
    {
      AnySlotInBucketExact(d.availableTimes, amOrPm);
    }
    forall i | 0 <= i < |doctors| ensures AnySlotInBucket(doctors[i].availableTimes, amOrPm).Some? {
      assert doctors[i] in doctors;
      AnySlotInBucketExact(doctors[i].availableTimes, amOrPm);
    }
    FilterCongruence(doctors, HasSlotInBucket(amOrPm), (d: Doctor) => HasSlotIn(d, amOrPm));
  }

  /** Any bucket other than `AM` or `PM` (in any case) selects no doctor. */
  lemma FilterDoctorByTimeOtherBucket(doctors: seq<Doctor>, amOrPm: string)
    requires !EqualsIgnoreCase("AM", amOrPm) && !EqualsIgnoreCase("PM", amOrPm)
    ensures FilterDoctorByTime(doctors, amOrPm) in {Returns([]), Throws}
  {
    forall d | d in doctors ensures !HasSlotInBucket(amOrPm)(d) {
      AnySlotInOtherBucket(d.availableTimes, amOrPm);
    }
    FilterNone(doctors, HasSlotInBucket(amOrPm));
  }

  /** The bucket name is compared ignoring case. */
  lemma InBucketIgnoresCase(hour: int, a: string, b: string)
    requires EqualsIgnoreCase(a, b)
    ensures InBucket(hour, a) == InBucket(hour, b)
  {
  }

  /** A booked time's label reads back as its hour, so the labels the
      availability computes are well-formed slots. */
  lemma LabelHour(t: LocalTime)
    ensures SlotHour(Label(t)) == Some(t.hour)
  {
    ParseTwoDigits(t.hour);
  }

  // ---------------------------------------------------------------------
  // Search by name, specialty and time

  /** The criterion of the base query `filterDoctorsByNameSpecilityandTime`
      picks: name and specialty, else name, else specialty, else every doctor
      when a time is given, else none. */
  predicate MatchesCriteria(d: Doctor, like: (string, string) -> bool,
                            name: Option<string>, specialty: Option<string>, amOrPm: Option<string>)
  {
    if name.Some? && specialty.Some? then ContainsIgnoreCase(d.name, name.value) && EqualsIgnoreCase(d.specialty, specialty.value)
    else if name.Some? then like(name.value, d.name)
    else if specialty.Some? then EqualsIgnoreCase(d.specialty, specialty.value)
    else amOrPm.Some?
  }

  /** The base list: one repository query chosen by which criteria are present. */
  function BaseSet(doctors: seq<Doctor>, like: (string, string) -> bool,
                   name: Option<string>, specialty: Option<string>, amOrPm: Option<string>): seq<Doctor>
  {
    if name.Some? && specialty.Some? then FindByNameAndSpecialty(doctors, name.value, specialty.value)
    else if name.Some? then FindByNameLike(doctors, like, name.value)
    else if specialty.Some? then FindBySpecialty(doctors, specialty.value)
    else if amOrPm.Some? then doctors
    else []
  }

  /** `filterDoctorsByNameSpecilityandTime(name, specialty, amOrPm)`: the base
      list, narrowed by the time filter only when a time is given. */
  function FilterDoctorsByNameSpecilityAndTime(doctors: seq<Doctor>, like: (string, string) -> bool,
                                               name: Option<string>, specialty: Option<string>,
                                               amOrPm: Option<string>): (r: Try<seq<Doctor>>)
    ensures amOrPm.None? ==> r.Returns?
    ensures name.None? && specialty.None? && amOrPm.None? ==> r == Returns([])
  {
    var base := BaseSet(doctors, like, name, specialty, amOrPm);
    if amOrPm.Some? then FilterDoctorByTime(base, amOrPm.value) else Returns(base)
  }

  function Criteria(like: (string, string) -> bool, name: Option<string>,
                    specialty: Option<string>, amOrPm: Option<string>): Doctor -> bool
  {
    (d: Doctor) => MatchesCriteria(d, like, name, specialty, amOrPm)
  }

  lemma BaseSetIsFilter(doctors: seq<Doctor>, like: (string, string) -> bool,
                        name: Option<string>, specialty: Option<string>, amOrPm: Option<string>)
    ensures BaseSet(doctors, like, name, specialty, amOrPm) == Filter(doctors, Criteria(like, name, specialty, amOrPm))
  {
    var c := Criteria(like, name, specialty, amOrPm);
    if name.Some? && specialty.Some? {
      FilterCongruence(doctors, (d: Doctor) => ContainsIgnoreCase(d.name, name.value) && EqualsIgnoreCase(d.specialty, specialty.value), c);
    } else if name.Some? {
      FilterCongruence(doctors, (d: Doctor) => like(name.value, d.name), c);
    } else if specialty.Some? {
      FilterCongruence(doctors, (d: Doctor) => EqualsIgnoreCase(d.specialty, specialty.value), c);
    } else if amOrPm.Some? {
      FilterAll(doctors, c);
    } else {
      FilterNone(doctors, c);
    }
  }

  /** The search keeps, in store order, exactly the doctors meeting the
      criterion chosen by priority and, when a time is given, having a slot in
      the bucket; with well-formed slots it never raises. */
  lemma FilterDoctorsSelects(doctors: seq<Doctor>, like: (string, string) -> bool,
                             name: Option<string>, specialty: Option<string>, amOrPm: Option<string>)
    ensures var r := FilterDoctorsByNameSpecilityAndTime(doctors, like, name, specialty, amOrPm);
      (amOrPm.None? ==> r == Returns(Filter(doctors, Criteria(like, name, specialty, amOrPm)))) &&
      (amOrPm.Some? && r.Returns? ==>
         r.value == Filter(doctors, Both(Criteria(like, name, specialty, amOrPm), HasSlotInBucket(amOrPm.value)))) &&
      (amOrPm.Some? && (forall d :: d in doctors ==> SlotsParse(d)) ==> r.Returns?)
  {
    BaseSetIsFilter(doctors, like, name, specialty, amOrPm);
    var c := Criteria(like, name, specialty, amOrPm);
    if amOrPm.Some? {
      FilterFilter(doctors, c, HasSlotInBucket(amOrPm.value));
      if forall d :: d in doctors ==> SlotsParse(d) {
        var base := Filter(doctors, c);
        forall i | 0 <= i < |base| ensures AnySlotInBucket(base[i].availableTimes, amOrPm.value).Some? {
          AnySlotInBucketExact(base[i].availableTimes, amOrPm.value);
        }
      }
    }
  }

  /** Each result is a doctor of the store, kept in store order. */
  lemma FilterDoctorsIsSubsequence(doctors: seq<Doctor>, like: (string, string) -> bool,
                                   name: Option<string>, specialty: Option<string>, amOrPm: Option<string>)
    requires FilterDoctorsByNameSpecilityAndTime(doctors, like, name, specialty, amOrPm).Returns?
    ensures IsSubsequence(FilterDoctorsByNameSpecilityAndTime(doctors, like, name, specialty, amOrPm).value, doctors)
  {
    FilterDoctorsSelects(doctors, like, name, specialty, amOrPm);
    var c := Criteria(like, name, specialty, amOrPm);
    if amOrPm.Some? {
      FilterIsSubsequence(doctors, Both(c, HasSlotInBucket(amOrPm.value)));
    } else {
      FilterIsSubsequence(doctors, c);
    }
  }

  /** `findDoctorByName(name)`. */
  function FindDoctorByName(doctors: seq<Doctor>, like: (string, string) -> bool, name: string): (r: seq<Doctor>)
    ensures Returns(r) == FilterDoctorsByNameSpecilityAndTime(doctors, like, Some(name), None, None)
  {
    FindByNameLike(doctors, like, name)
  }

  /** `filterDoctorByNameAndTime(name, amOrPm)`. */
  function FilterDoctorByNameAndTime(doctors: seq<Doctor>, like: (string, string) -> bool,
                                     name: string, amOrPm: string): (r: Try<seq<Doctor>>)
    ensures r == FilterDoctorsByNameSpecilityAndTime(doctors, like, Some(name), None, Some(amOrPm))
  {
    FilterDoctorByTime(FindByNameLike(doctors, like, name), amOrPm)
  }

  /** `filterDoctorByNameAndSpecility(name, specialty)`. */
  function FilterDoctorByNameAndSpecility(doctors: seq<Doctor>, like: (string, string) -> bool,
                                          name: string, specialty: string): (r: seq<Doctor>)
    ensures Returns(r) == FilterDoctorsByNameSpecilityAndTime(doctors, like, Some(name), Some(specialty), None)
  {
    FindByNameAndSpecialty(doctors, name, specialty)
  }

  /** `filterDoctorByTimeAndSpecility(specialty, amOrPm)`. */
  function FilterDoctorByTimeAndSpecility(doctors: seq<Doctor>, like: (string, string) -> bool,
                                          specialty: string, amOrPm: string): (r: Try<seq<Doctor>>)
    ensures r == FilterDoctorsByNameSpecilityAndTime(doctors, like, None, Some(specialty), Some(amOrPm))
  {
    FilterDoctorByTime(FindBySpecialty(doctors, specialty), amOrPm)
  }

  /** `filterDoctorBySpecility(specialty)`. */
  function FilterDoctorBySpecility(doctors: seq<Doctor>, like: (string, string) -> bool,
                                   specialty: string): (r: seq<Doctor>)
    ensures Returns(r) == FilterDoctorsByNameSpecilityAndTime(doctors, like, None, Some(specialty), None)
  {
    FindBySpecialty(doctors, specialty)
  }

  /** `filterDoctorsByTime(amOrPm)`. */
  function FilterDoctorsByTime(doctors: seq<Doctor>, like: (string, string) -> bool,
                               amOrPm: string): (r: Try<seq<Doctor>>)
    ensures r == FilterDoctorsByNameSpecilityAndTime(doctors, like, None, None, Some(amOrPm))
  {
    FilterDoctorByTime(doctors, amOrPm)
  }

  // ---------------------------------------------------------------------
  // Adding, updating and deleting doctors

  /** No two stored doctors share an email. */
  predicate UniqueEmails(doctors: seq<Doctor>)
  {
    forall i, j :: 0 <= i < j < |doctors| ==> doctors[i].email != doctors[j].email
  }

  /** Every appointment refers to a stored doctor. */
  predicate NoOrphans(doctors: seq<Doctor>, appointments: seq<AppointmentRecord>)
  {
    forall a :: a in appointments ==> FindDoctorById(doctors, a.doctorId).Some?
  }

  function OfDoctor(doctorId: nat): AppointmentRecord -> bool
  {
    (a: AppointmentRecord) => a.doctorId == doctorId
  }

  /** Saving a doctor whose email is not stored makes the email lookup find
      exactly the saved row, and keeps emails unique. */
  lemma SaveNewEmail(rows: seq<Doctor>, doctor: Doctor, nextId: nat)
    requires UniqueKeys(rows, DoctorId)
    requires forall i :: 0 <= i < |rows| ==> rows[i].email != doctor.email
    ensures var saved := if HasKey(rows, DoctorId, doctor.id) then doctor else DoctorWithId(doctor, nextId);
      var after := if HasKey(rows, DoctorId, doctor.id) then ReplaceByKey(rows, DoctorId, doctor) else rows + [saved];
      FindDoctorByEmail(after, doctor.email) == Returns(Some(saved)) &&
      (UniqueEmails(rows) ==> UniqueEmails(after))
  {
    if HasKey(rows, DoctorId, doctor.id) {
      var after := ReplaceByKey(rows, DoctorId, doctor);
      var k :| 0 <= k < |rows| && rows[k].id == doctor.id;
      assert after[k] == doctor;
      forall j | 0 <= j < |after| && j != k ensures after[j].email != doctor.email {
        assert rows[j].id != doctor.id;
      }
      FindDoctorByEmailUnique(after, k);
    } else {
      var saved := DoctorWithId(doctor, nextId);
      var after := rows + [saved];
      FindDoctorByEmailUnique(after, |rows|);
    }
  }

  /** `saveDoctor(doctor)`: -1 and nothing saved when a doctor with the email
      is stored; otherwise the doctor is saved and the code is 1, and the
      email then finds it. A failing store (`fault`) or an ambiguous lookup is
      caught and reported as 0 with nothing saved. */
  method SaveDoctor(doctors: Repository<Doctor>, doctor: Doctor, fault: bool) returns (code: int)
    requires IsDoctorTable(doctors)
    modifies doctors
    ensures IsDoctorTable(doctors)
    ensures var found := old(FindDoctorByEmail(doctors.rows, doctor.email));
      (code == -1 <==> found.Returns? && found.value.Some?) &&
      (code == 1 <==> found == Returns(None) && !fault) &&
      (code == 0 <==> found.Throws? || (found == Returns(None) && fault))
    ensures code != 1 ==> doctors.rows == old(doctors.rows) && doctors.nextId == old(doctors.nextId)
    ensures code == 1 ==> doctors.rows == old(doctors.RowsAfterSave(doctor))
    ensures code == 1 ==>
      doctors.nextId == if HasKey(old(doctors.rows), DoctorId, doctor.id) then old(doctors.nextId) else old(doctors.nextId) + 1
    ensures code == 1 ==> FindDoctorByEmail(doctors.rows, doctor.email) == Returns(Some(old(doctors.SavedRow(doctor))))
    ensures UniqueEmails(old(doctors.rows)) ==> UniqueEmails(doctors.rows)
  {
    var found := FindDoctorByEmail(doctors.rows, doctor.email);
    if found.Throws? {
      return 0;
    }
    if found.value.Some? {
      return -1;
    }
    if fault {
      return 0;
    }
    FindDoctorByEmailNone(doctors.rows, doctor.email);
    SaveNewEmail(doctors.rows, doctor, doctors.nextId);
    var saved := doctors.Save(doctor);
    return 1;
  }

  /** Replacing a stored doctor by one with the same id and email keeps
      every email where it was. */
  lemma ReplaceSameEmail(rows: seq<Doctor>, db: Doctor, incoming: Doctor)
    requires UniqueKeys(rows, DoctorId) && db in rows
    requires incoming.id == db.id && incoming.email == db.email
    ensures HasKey(rows, DoctorId, incoming.id)
    ensures UniqueEmails(rows) ==> UniqueEmails(ReplaceByKey(rows, DoctorId, incoming))
  {
    var k :| 0 <= k < |rows| && rows[k] == db;
    assert DoctorId(rows[k]) == incoming.id;
    var after := ReplaceByKey(rows, DoctorId, incoming);
    forall i | 0 <= i < |rows| ensures after[i].email == rows[i].email {
      if rows[i].id == db.id {
        assert i == k;
      }
    }
  }

  /** `updateDoctor(doctor)`: -1 when no doctor has the email; otherwise the
      stored id is copied onto the incoming doctor, which then replaces the
      stored row, and the code is 1. A failing store or an ambiguous lookup
      is caught and reported as 0 with nothing changed. */
  method UpdateDoctor(doctors: Repository<Doctor>, doctor: Doctor, fault: bool) returns (code: int)
    requires IsDoctorTable(doctors)
    modifies doctors
    ensures IsDoctorTable(doctors)
    ensures var found := old(FindDoctorByEmail(doctors.rows, doctor.email));
      (code == -1 <==> found == Returns(None)) &&
      (code == 1 <==> found.Returns? && found.value.Some? && !fault) &&
      (code == 0 <==> found.Throws? || (found.Returns? && found.value.Some? && fault))
    ensures code != 1 ==> doctors.rows == old(doctors.rows) && doctors.nextId == old(doctors.nextId)
    ensures code == 1 ==>
      var db := old(FindDoctorByEmail(doctors.rows, doctor.email)).value.value;
      db in old(doctors.rows) &&
      doctors.rows == ReplaceByKey(old(doctors.rows), DoctorId, doctor.(id := db.id)) &&
      doctors.nextId == old(doctors.nextId) &&
      FindDoctorById(doctors.rows, db.id) == Some(doctor.(id := db.id))
    ensures UniqueEmails(old(doctors.rows)) ==> UniqueEmails(doctors.rows)
  {
    var found := FindDoctorByEmail(doctors.rows, doctor.email);
    if found.Throws? {
      return 0;
    }
    if found.value.None? {
      return -1;
    }
    var db := found.value.value;
    var incoming := doctor.(id := db.id);
    if fault {
      return 0;
    }
    FindDoctorByEmailSome(doctors.rows, doctor.email);
    ReplaceSameEmail(doctors.rows, db, incoming);
    var saved := doctors.Save(incoming);
    return 1;
  }

  /** `deleteDoctor(id)`: -1 when no doctor has the id; otherwise every
      appointment of the doctor is deleted, then the doctor, and the code is 1.
      The two deletions are separate store calls: a failure of the first
      changes nothing, a failure of the second leaves the appointments
      deleted and the doctor stored; either is reported as 0. Every
      appointment still refers to a stored doctor afterwards. */
  method DeleteDoctor(doctors: Repository<Doctor>, appointments: Repository<AppointmentRecord>, id: nat,
                      appointmentsFault: bool, doctorFault: bool) returns (code: int)
    requires IsDoctorTable(doctors) && IsAppointmentTable(appointments)
    modifies doctors, appointments
    ensures IsDoctorTable(doctors) && IsAppointmentTable(appointments)
    ensures code == -1 <==> FindDoctorById(old(doctors.rows), id).None?
    ensures code == 1 <==> FindDoctorById(old(doctors.rows), id).Some? && !appointmentsFault && !doctorFault
    ensures code in {-1, 0, 1}
    ensures code == -1 || (code == 0 && appointmentsFault) ==> appointments.rows == old(appointments.rows)
    ensures code == 1 || (code == 0 && !appointmentsFault) ==>
      appointments.rows == Filter(old(appointments.rows), Not(OfDoctor(id)))
    ensures code == 1 ==> doctors.rows == RemoveByKey(old(doctors.rows), DoctorId, id)
    ensures code != 1 ==> doctors.rows == old(doctors.rows)
    ensures doctors.nextId == old(doctors.nextId) && appointments.nextId == old(appointments.nextId)
    ensures NoOrphans(old(doctors.rows), old(appointments.rows)) ==> NoOrphans(doctors.rows, appointments.rows)
  {
    var found := FindDoctorById(doctors.rows, id);
    if found.None? {
      return -1;
    }
    if appointmentsFault {
      return 0;
    }
    ghost var oldDoctors, oldAppointments := doctors.rows, appointments.rows;
    appointments.DeleteWhere(OfDoctor(id));
    forall a | a in appointments.rows ensures a in oldAppointments && a.doctorId != id {
      FilterMember(oldAppointments, Not(OfDoctor(id)), a);
    }
    if doctorFault {
      return 0;
    }
    doctors.Delete(found.value);
    RemoveByKeyFacts(oldDoctors, DoctorId, id);
    if NoOrphans(oldDoctors, oldAppointments) {
      forall a | a in appointments.rows ensures FindDoctorById(doctors.rows, a.doctorId).Some? {
        var x := FindDoctorById(oldDoctors, a.doctorId).value;
        assert x in doctors.rows;
        var i :| 0 <= i < |doctors.rows| && doctors.rows[i] == x;
        assert DoctorId(doctors.rows[i]) == a.doctorId;
      }
    }
    return 1;
  }

  /** `validateDoctor(login)`: a token for the login email when a doctor has
      that email, unauthorized when none has. */
  function ValidateDoctor(doctors: seq<Doctor>, tokens: TokenService, login: Login): (r: Reply<string>)
    ensures r.Success? <==> FindDoctorByEmail(doctors, login.email).Returns? && FindDoctorByEmail(doctors, login.email).value.Some?
    ensures r.Success? ==> r == Success(Ok, tokens.generate(login.email))
    ensures r.Failure? <==> FindDoctorByEmail(doctors, login.email) == Returns(None)
    ensures r.Failure? ==> r.status == Unauthorized
  {
    match FindDoctorByEmail(doctors, login.email)
    case Throws => Thrown
    case Returns(None) => Failure(Unauthorized)
    case Returns(Some(_)) => Success(Ok, tokens.generate(login.email))
  }

  /** The doctor login never compares the password. */
  lemma ValidateDoctorIgnoresPassword(doctors: seq<Doctor>, tokens: TokenService, email: string, p: string, q: string)
    ensures ValidateDoctor(doctors, tokens, Login(email, p)) == ValidateDoctor(doctors, tokens, Login(email, q))
  {
  }
}
