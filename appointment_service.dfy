/** `AppointmentService`: booking, updating, cancelling and listing
    appointments, and changing an appointment's status, over the appointment
    table. */
module AppointmentService {
  import opened Outcomes
  import opened Seqs
  import opened Tables
  import opened Text
  import opened Time
  import opened Models
  import opened Repositories
  import opened DoctorService
  import opened Service

  /** `bookAppointment(appointment)`: the appointment is saved and the code is
      1; a failing store (`fault`) is caught and reported as 0 with nothing
      saved. */
  method BookAppointment(appointments: Repository<AppointmentRecord>, appointment: AppointmentRecord, fault: bool)
    returns (code: int)
    requires IsAppointmentTable(appointments)
    modifies appointments
    ensures IsAppointmentTable(appointments)
    ensures code == if fault then 0 else 1
    ensures fault ==> appointments.rows == old(appointments.rows) && appointments.nextId == old(appointments.nextId)
    ensures !fault ==> appointments.rows == old(appointments.RowsAfterSave(appointment))
    ensures !fault ==>
      appointments.nextId == if HasKey(old(appointments.rows), AppointmentId, appointment.id) then old(appointments.nextId)
                             else old(appointments.nextId) + 1
    ensures !fault ==>
      var saved := old(appointments.SavedRow(appointment));
      FindAppointmentById(appointments.rows, saved.id) == Some(saved)
  {
    if fault {
      return 0;
    }
    var saved := appointments.Save(appointment);
    return 1;
  }

  /** `updateAppointment(appointment)`: not found when no appointment has the
      id; bad request when validation does not answer 1; otherwise the
      incoming appointment replaces the stored one wholesale. Only a
      successful update changes the table. */
  method UpdateAppointment(doctors: Repository<Doctor>, appointments: Repository<AppointmentRecord>,
                           appointment: AppointmentRecord) returns (r: Status)
    requires IsDoctorTable(doctors) && IsAppointmentTable(appointments)
    modifies appointments
    ensures IsAppointmentTable(appointments)
    ensures var found := old(FindAppointmentById(appointments.rows, appointment.id));
      var code := old(ValidateAppointment(doctors.rows, appointments.rows, appointment));
      r == (if found.None? then NotFound else if code != 1 then BadRequest else Ok)
    ensures r != Ok ==> appointments.rows == old(appointments.rows)
    ensures r == Ok ==> appointments.rows == ReplaceByKey(old(appointments.rows), AppointmentId, appointment)
    ensures r == Ok ==> FindAppointmentById(appointments.rows, appointment.id) == Some(appointment)
    ensures appointments.nextId == old(appointments.nextId)
  {
    var existing := FindAppointmentById(appointments.rows, appointment.id);
    if existing.None? {
      return NotFound;
    }
    if ValidateAppointment(doctors.rows, appointments.rows, appointment) != 1 {
      return BadRequest;
    }
    var saved := appointments.Save(appointment);
    return Ok;
  }

  /** Validation of an update sees the appointment being updated as a booking:
      when the doctor publishes only the appointment's own slot, the
      unchanged appointment is refused. */
  lemma UpdateSeesItsOwnBooking(doctors: seq<Doctor>, appointments: seq<AppointmentRecord>, visit: AppointmentRecord)
    requires visit in appointments
    requires FindDoctorById(doctors, visit.doctorId).Some?
    requires FindDoctorById(doctors, visit.doctorId).value.availableTimes == [Label(visit.appointmentTime.time)]
    ensures ValidateAppointment(doctors, appointments, visit) == 0
  {
    var date := visit.appointmentTime.date;
    var slot := Label(visit.appointmentTime.time);
    assert Taken(appointments, visit.doctorId, date, slot);
    SlotBooked(appointments, visit.doctorId, date, slot);
    FilterNone([slot], NotIn(BookedLabels(appointments, visit.doctorId, date)));
  }

  /** `cancelAppointment(id, token)`, steps in the order written: the stored
      appointment is fetched and deleted first — fetching an id that is not
      stored raises (`Optional.get` on an empty value) before anything
      else — then the token is checked, so an appointment is gone even when
      the answer is unauthorized. The presence check placed after the delete
      can no longer fail, and whose appointment it is is never checked. */
  method CancelAppointment(appointments: Repository<AppointmentRecord>, tokens: TokenService,
                           id: nat, token: string) returns (r: Try<Status>)
    requires IsAppointmentTable(appointments)
    modifies appointments
    ensures IsAppointmentTable(appointments)
    ensures old(FindAppointmentById(appointments.rows, id)).None? ==>
      r == Throws && appointments.rows == old(appointments.rows)
    ensures old(FindAppointmentById(appointments.rows, id)).Some? ==>
      appointments.rows == RemoveByKey(old(appointments.rows), AppointmentId, id) &&
      r == Returns(if tokens.validate(token, "patient") then Ok else Unauthorized)
    ensures FindAppointmentById(appointments.rows, id).None?
    ensures appointments.nextId == old(appointments.nextId)
  {
    var existing := FindAppointmentById(appointments.rows, id);
    if existing.None? {
      return Throws;
    }
    ghost var before := appointments.rows;
    appointments.Delete(existing.value);
    if !tokens.validate(token, "patient") {
      return Returns(Unauthorized);
    }
    RemoveByKeyTwice(before, AppointmentId, id);
    appointments.Delete(existing.value);
    return Returns(Ok);
  }

  /** The answer of `getAppointments`: the token is not a doctor's, or the
      listed appointments. */
  datatype Listing = InvalidToken | Appointments(list: seq<AppointmentRecord>)

  /** The name of the stored patient an appointment references; `None` when
      no stored patient has that id, where the entity's patient is null. */
  function PatientName(patients: seq<Patient>, a: AppointmentRecord): Option<string>
  {
    match FindPatientById(patients, a.patientId)
    case None => None
    case Some(p) => Some(p.name)
  }

  /** The appointment's stored patient has a name containing `pname`, ignoring case. */
  predicate NameContains(patients: seq<Patient>, a: AppointmentRecord, pname: string)
  {
    PatientName(patients, a).Some? && ContainsIgnoreCase(PatientName(patients, a).value, pname)
  }

  function PatientNameContains(patients: seq<Patient>, pname: string): AppointmentRecord -> bool
  {
    (a: AppointmentRecord) => NameContains(patients, a, pname)
  }

  /** Every appointment of `list` references a stored patient. */
  predicate PatientsStored(patients: seq<Patient>, list: seq<AppointmentRecord>)
  {
    forall i :: 0 <= i < |list| ==> PatientName(patients, list[i]).Some?
  }

  /** Whether the patient-name filter applies: a name is given and is not blank. */
  predicate NameFilterApplies(pname: Option<string>)
  {
    pname.Some? && !IsBlank(pname.value)
  }

  /** The doctor's appointments in the window of `date`, narrowed to stored
      patient names containing `pname` (ignoring case) when the name filter
      applies. */
  function DayListing(patients: seq<Patient>, appointments: seq<AppointmentRecord>, doctorId: nat, date: LocalDate,
                      pname: Option<string>): Try<seq<AppointmentRecord>>
  {
    NameFiltered(patients, AppointmentsOnDay(appointments, doctorId, date), pname)
  }

  /** `list`, narrowed to stored patient names containing `pname` (ignoring
      case) when the name filter applies; the filter dereferences each
      appointment's patient, so one whose patient is not stored raises. */
  function NameFiltered(patients: seq<Patient>, list: seq<AppointmentRecord>,
                        pname: Option<string>): Try<seq<AppointmentRecord>>
  {
    if !NameFilterApplies(pname) then Returns(list)
    else if PatientsStored(patients, list) then Returns(Filter(list, PatientNameContains(patients, pname.value)))
    else Throws
  }

  /** What `getAppointments(pname, date, token)` answers: the token's
      email names the doctor, looked up before the token is checked; a
      token that is not a doctor's gets the error entry; a doctor that is not
      stored is dereferenced as null. */
  function AppointmentsFor(doctors: seq<Doctor>, patients: seq<Patient>, appointments: seq<AppointmentRecord>,
                           tokens: TokenService, pname: Option<string>, date: LocalDate, token: string): Try<Listing>
  {
    match tokens.extractIdentifier(token)
    case None => Throws
    case Some(email) =>
      match FindDoctorByEmail(doctors, email)
      case Throws => Throws
      case Returns(doctor) =>
        if !tokens.validate(token, "doctor") then Returns(InvalidToken)
        else if doctor.None? then Throws
        else match DayListing(patients, appointments, doctor.value.id, date, pname)
          case Throws => Throws
          case Returns(list) => Returns(Appointments(list))
  }

  /** `getAppointments(pname, date, token)`, with `removeIf` as a loop over
      the fetched list. */
  method GetAppointments(doctors: Repository<Doctor>, patients: seq<Patient>, appointments: Repository<AppointmentRecord>,
                         tokens: TokenService, pname: Option<string>, date: LocalDate, token: string)
    returns (r: Try<Listing>)
    ensures r == AppointmentsFor(doctors.rows, patients, appointments.rows, tokens, pname, date, token)
  {
    var email := tokens.extractIdentifier(token);
    if email.None? {
      return Throws;
    }
    var doctor := FindDoctorByEmail(doctors.rows, email.value);
    if doctor.Throws? {
      return Throws;
    }
    if !tokens.validate(token, "doctor") {
      return Returns(InvalidToken);
    }
    if doctor.value.None? {
      return Throws;
    }
    var list := AppointmentsOnDay(appointments.rows, doctor.value.value.id, date);
    if pname.Some? && !IsBlank(pname.value) {
      var kept := RemoveIfNameMissing(patients, list, pname.value);
      if kept.Throws? {
        return Throws;
      }
      list := kept.value;
    }
    return Returns(Appointments(list));
  }

  /** `list.removeIf(a -> !a.getPatient().getName().toLowerCase().contains(pname.toLowerCase()))`:
      the appointments whose stored patient's name contains `pname` ignoring
      case, in list order; an appointment whose patient is not stored raises
      a null dereference. */
  method RemoveIfNameMissing(patients: seq<Patient>, list: seq<AppointmentRecord>, pname: string)
    returns (r: Try<seq<AppointmentRecord>>)
    ensures r == if PatientsStored(patients, list) then Returns(Filter(list, PatientNameContains(patients, pname))) else Throws
  {
    var keep := PatientNameContains(patients, pname);
    var kept := [];
    var i := 0;
    while i < |list|
      invariant 0 <= i <= |list|
      invariant kept == Filter(list[..i], keep)
      invariant forall j :: 0 <= j < i ==> PatientName(patients, list[j]).Some?
    {
      var name := PatientName(patients, list[i]);
      if name.None? {
        return Throws;
      }
      assert list[..i + 1] == list[..i] + [list[i]];
      FilterAppend(list[..i], [list[i]], keep);
      assert [list[i]][1..] == [];
      if ContainsIgnoreCase(name.value, pname) {
        kept := kept + [list[i]];
      }
      i := i + 1;
    }
    assert list[..|list|] == list;
    return Returns(kept);
  }

  /** When the listing is computed, an appointment is listed exactly when it
      is the doctor's, dated `date`, and — when the name filter applies — its
      stored patient's name contains the given name ignoring case. */
  lemma DayListingMember(patients: seq<Patient>, appointments: seq<AppointmentRecord>, doctorId: nat, date: LocalDate,
                         pname: Option<string>, a: AppointmentRecord)
    requires DayListing(patients, appointments, doctorId, date, pname).Returns?
    ensures a in DayListing(patients, appointments, doctorId, date, pname).value <==>
      a in appointments && a.doctorId == doctorId && a.appointmentTime.date == date &&
      (NameFilterApplies(pname) ==> NameContains(patients, a, pname.value))
  {
    var day := AppointmentsOnDay(appointments, doctorId, date);
    var listed := a in DayListing(patients, appointments, doctorId, date, pname).value;
    var onDay := a in appointments && a.doctorId == doctorId && a.appointmentTime.date == date;
    var named := NameFilterApplies(pname) ==> NameContains(patients, a, pname.value);
    assert (a in day) == onDay by {
      AppointmentsOnDayMember(appointments, doctorId, date, a);
    }
    assert listed == (a in day && named) by {
      NameFilteredMember(patients, day, pname, a);
    }
  }

  /** The listing raises exactly when the name filter applies and one of the
      doctor's appointments that day references a patient that is not stored. */
  lemma DayListingThrows(patients: seq<Patient>, appointments: seq<AppointmentRecord>, doctorId: nat, date: LocalDate,
                         pname: Option<string>)
    ensures DayListing(patients, appointments, doctorId, date, pname) == Throws <==>
      NameFilterApplies(pname) &&
      exists b :: b in appointments && b.doctorId == doctorId && b.appointmentTime.date == date &&
        PatientName(patients, b).None?
  {
    var day := AppointmentsOnDay(appointments, doctorId, date);
    var missingInDay := !PatientsStored(patients, day);
    var missing := exists b :: (b in appointments && b.doctorId == doctorId && b.appointmentTime.date == date &&
      PatientName(patients, b).None?);
    assert missingInDay == missing by {
      if missingInDay {
        var i :| 0 <= i < |day| && PatientName(patients, day[i]).None?;
        AppointmentsOnDayMember(appointments, doctorId, date, day[i]);
      }
      if missing {
        var b :| b in appointments && b.doctorId == doctorId && b.appointmentTime.date == date &&
          PatientName(patients, b).None?;
        AppointmentsOnDayMember(appointments, doctorId, date, b);
        var i :| 0 <= i < |day| && day[i] == b;
      }
    }
    assert (NameFiltered(patients, day, pname) == Throws) == (NameFilterApplies(pname) && missingInDay);
  }

  /** The name filter keeps exactly the appointments whose stored patient's
      name contains the given name ignoring case, and keeps all when it does
      not apply. */
  lemma NameFilteredMember(patients: seq<Patient>, list: seq<AppointmentRecord>, pname: Option<string>,
                           a: AppointmentRecord)
    requires NameFiltered(patients, list, pname).Returns?
    ensures a in NameFiltered(patients, list, pname).value <==>
      a in list && (NameFilterApplies(pname) ==> NameContains(patients, a, pname.value))
  {
    if NameFilterApplies(pname) {
      FilterMember(list, PatientNameContains(patients, pname.value), a);
    }
  }

  /** The listing keeps the table's order. */
  lemma DayListingIsSubsequence(patients: seq<Patient>, appointments: seq<AppointmentRecord>, doctorId: nat,
                                date: LocalDate, pname: Option<string>)
    ensures DayListing(patients, appointments, doctorId, date, pname).Returns? ==>
      IsSubsequence(DayListing(patients, appointments, doctorId, date, pname).value, appointments)
  {
    var start, end := AtStartOfDay(date), AtTime(date, 23, 59, 59);
    var onDay := (a: AppointmentRecord) => Matches(a, doctorId, start, end);
    if NameFilterApplies(pname) {
      FilterFilter(appointments, onDay, PatientNameContains(patients, pname.value));
      FilterIsSubsequence(appointments, Both(onDay, PatientNameContains(patients, pname.value)));
    } else {
      FilterIsSubsequence(appointments, onDay);
    }
  }

  /** A blank patient name lists the same appointments as no name. */
  lemma DayListingBlankName(patients: seq<Patient>, appointments: seq<AppointmentRecord>, doctorId: nat,
                            date: LocalDate, pname: string)
    requires IsBlank(pname)
    ensures DayListing(patients, appointments, doctorId, date, Some(pname)) ==
      Returns(AppointmentsOnDay(appointments, doctorId, date))
  {
  }

  /** The name filter reads the stored patient: two appointments referencing
      the same patient id are kept or dropped alike, whatever else the
      booking request carried. */
  lemma NameFilterReadsStoredPatient(patients: seq<Patient>, a: AppointmentRecord, b: AppointmentRecord, pname: string)
    requires a.patientId == b.patientId
    ensures PatientNameContains(patients, pname)(a) == PatientNameContains(patients, pname)(b)
  {
  }

  /** With a parseable token whose email finds at most one doctor, a token
      that is not a doctor's gets the error entry and no appointments. */
  lemma AppointmentsForInvalidToken(doctors: seq<Doctor>, patients: seq<Patient>, appointments: seq<AppointmentRecord>,
                                    tokens: TokenService, pname: Option<string>, date: LocalDate, token: string)
    requires tokens.extractIdentifier(token).Some?
    requires FindDoctorByEmail(doctors, tokens.extractIdentifier(token).value).Returns?
    requires !tokens.validate(token, "doctor")
    ensures AppointmentsFor(doctors, patients, appointments, tokens, pname, date, token) == Returns(InvalidToken)
  {
  }

  /** The listing a doctor's token gets holds exactly that doctor's
      appointments of the day that pass the name filter. */
  lemma AppointmentsForListsDoctorsDay(doctors: seq<Doctor>, patients: seq<Patient>, appointments: seq<AppointmentRecord>,
                                       tokens: TokenService, pname: Option<string>, date: LocalDate, token: string,
                                       a: AppointmentRecord)
    requires AppointmentsFor(doctors, patients, appointments, tokens, pname, date, token).Returns?
    requires AppointmentsFor(doctors, patients, appointments, tokens, pname, date, token).value.Appointments?
    ensures tokens.validate(token, "doctor") && tokens.extractIdentifier(token).Some?
    ensures var found := FindDoctorByEmail(doctors, tokens.extractIdentifier(token).value);
      found.Returns? && found.value.Some? && found.value.value.email == tokens.extractIdentifier(token).value &&
      (a in AppointmentsFor(doctors, patients, appointments, tokens, pname, date, token).value.list <==>
        a in appointments && a.doctorId == found.value.value.id && a.appointmentTime.date == date &&
        (NameFilterApplies(pname) ==> NameContains(patients, a, pname.value)))
  {
    var email := tokens.extractIdentifier(token).value;
    FindDoctorByEmailSome(doctors, email);
    DayListingMember(patients, appointments, FindDoctorByEmail(doctors, email).value.value.id, date, pname, a);
  }

  /** The table after `changeStatus(id, status)`: the appointment with the id
      carries the new status; every other row, and every other field, is as
      before. */
  function StatusChanged(rows: seq<AppointmentRecord>, id: nat, status: int): seq<AppointmentRecord>
  {
    seq(|rows|, i requires 0 <= i < |rows| => if rows[i].id == id then rows[i].(status := status) else rows[i])
  }

  /** `changeStatus(appointmentId, status)`: nothing happens for an id that is
      not stored; otherwise the stored appointment is loaded, its status set,
      and it is saved back. */
  method ChangeStatus(appointments: Repository<AppointmentRecord>, id: nat, newStatus: int)
    requires IsAppointmentTable(appointments)
    modifies appointments
    ensures IsAppointmentTable(appointments)
    ensures appointments.rows == StatusChanged(old(appointments.rows), id, newStatus)
    ensures appointments.nextId == old(appointments.nextId)
  {
    var found := FindAppointmentById(appointments.rows, id);
    if found.None? {
      StatusChangedAbsent(appointments.rows, id, newStatus);
      return;
    }
    var appointment := new Appointment.FromRecord(found.value);
    appointment.SetStatus(newStatus);
    SaveIsStatusChange(appointments.rows, found.value, newStatus);
    var saved := appointments.Save(appointment.Record());
  }

  /** Saving the loaded appointment with a new status is the status change. */
  lemma SaveIsStatusChange(rows: seq<AppointmentRecord>, stored: AppointmentRecord, status: int)
    requires UniqueKeys(rows, AppointmentId) && stored in rows
    ensures HasKey(rows, AppointmentId, stored.id)
    ensures ReplaceByKey(rows, AppointmentId, stored.(status := status)) == StatusChanged(rows, stored.id, status)
  {
    var k :| 0 <= k < |rows| && rows[k] == stored;
    assert AppointmentId(rows[k]) == stored.id;
    var after := ReplaceByKey(rows, AppointmentId, stored.(status := status));
    forall i | 0 <= i < |rows| ensures after[i] == StatusChanged(rows, stored.id, status)[i] {
      if rows[i].id == stored.id {
        assert i == k;
      }
    }
  }

  /** Changing the status of an id that is not stored changes nothing. */
  lemma StatusChangedAbsent(rows: seq<AppointmentRecord>, id: nat, status: int)
    requires !HasKey(rows, AppointmentId, id)
    ensures StatusChanged(rows, id, status) == rows
  {
    forall i | 0 <= i < |rows| ensures rows[i].id != id {
      assert AppointmentId(rows[i]) != id;
    }
  }

  /** Setting the same status twice is setting it once. */
  lemma StatusChangedIdempotent(rows: seq<AppointmentRecord>, id: nat, status: int)
    ensures StatusChanged(StatusChanged(rows, id, status), id, status) == StatusChanged(rows, id, status)
  {
  }

  /** Only the status changes: every row keeps its id, doctor, patient and
      time, and rows with other ids keep their status. */
  lemma StatusChangedOnlyStatus(rows: seq<AppointmentRecord>, id: nat, status: int)
    ensures |StatusChanged(rows, id, status)| == |rows|
    ensures forall i :: 0 <= i < |rows| ==>
      StatusChanged(rows, id, status)[i].(status := rows[i].status) == rows[i]
    ensures forall i :: 0 <= i < |rows| ==>
      StatusChanged(rows, id, status)[i].status == (if rows[i].id == id then status else rows[i].status)
  {
  }

  /** After the change the appointment is found with the new status; this is
      how a prescription marks an appointment completed. */
  lemma StatusChangedFind(rows: seq<AppointmentRecord>, stored: AppointmentRecord, status: int)
    requires UniqueKeys(rows, AppointmentId) && stored in rows
    ensures FindAppointmentById(StatusChanged(rows, stored.id, status), stored.id) == Some(stored.(status := status))
  {
    SaveIsStatusChange(rows, stored, status);
    ReplaceByKeyFacts(rows, AppointmentId, stored.(status := status));
  }
}
