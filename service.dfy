/** `Service`: the shared checks the controllers call before acting — token
    and login checks, the booking validation code, the patient duplicate
    check, and the choice of patient appointment filter. */
module Service {
  import opened Outcomes
  import opened Seqs
  import opened Text
  import opened Time
  import opened Models
  import opened Repositories
  import opened DoctorService

  /** `validateToken(token, user)`: OK exactly when the token is valid for
      the role, unauthorized otherwise. */
  function ValidateToken(tokens: TokenService, token: string, user: string): (r: Status)
    ensures r == Ok <==> tokens.validate(token, user)
    ensures r != Ok ==> r == Unauthorized
  {
    if tokens.validate(token, user) then Ok else Unauthorized
  }

  /** `validateAdmin(admin)`: a token for the username when the stored admin's
      password equals the supplied one, unauthorized when it differs. The
      stored password is printed before the null check, so an unknown
      username raises instead of being refused. */
  function ValidateAdmin(admins: seq<Admin>, tokens: TokenService, received: Admin): (r: Reply<string>)
    ensures var found := FindAdminByUsername(admins, received.username);
      r.Success? <==> found.Returns? && found.value.Some? && found.value.value.password == received.password
    ensures r.Success? ==> r == Success(Ok, tokens.generate(received.username))
    ensures r.Failure? ==> r.status == Unauthorized
    ensures var found := FindAdminByUsername(admins, received.username);
      found.Returns? && found.value.Some? && found.value.value.password != received.password ==> r == Failure(Unauthorized)
    ensures FindAdminByUsername(admins, received.username) == Returns(None) ==> r == Thrown
    ensures FindAdminByUsername(admins, received.username).Throws? ==> r == Thrown
  {
    match FindAdminByUsername(admins, received.username)
    case Throws => Thrown
    case Returns(None) => Thrown
    case Returns(Some(stored)) =>
      if stored.password == received.password then Success(Ok, tokens.generate(received.username))
      else Failure(Unauthorized)
  }

  /** An unknown admin username is an error, not a refusal. */
  lemma ValidateAdminUnknown(admins: seq<Admin>, tokens: TokenService, received: Admin)
    requires forall a :: a in admins ==> a.username != received.username
    ensures ValidateAdmin(admins, tokens, received) == Thrown
  {
    FilterNone(admins, (a: Admin) => a.username == received.username);
  }

  /** `filterDoctor(name, specialty, time)`: the doctor search of the doctor service. */
  function FilterDoctor(doctors: seq<Doctor>, like: (string, string) -> bool,
                        name: Option<string>, specialty: Option<string>, time: Option<string>): (r: Try<seq<Doctor>>)
    ensures r == FilterDoctorsByNameSpecilityAndTime(doctors, like, name, specialty, time)
  {
    FilterDoctorsByNameSpecilityAndTime(doctors, like, name, specialty, time)
  }

  /** `validateAppointment(appointment)`: -1 when the appointment's doctor is
      not stored; otherwise 0 when the doctor has no free slot at all on the
      appointment's date and 1 when it has one. The requested time itself is
      not compared with the free slots. */
  function ValidateAppointment(doctors: seq<Doctor>, appointments: seq<AppointmentRecord>,
                               appointment: AppointmentRecord): (r: int)
    ensures r in {-1, 0, 1}
    ensures r == -1 <==> FindDoctorById(doctors, appointment.doctorId).None?
    ensures r == 0 <==> (FindDoctorById(doctors, appointment.doctorId).Some? &&
      DoctorAvailability(doctors, appointments, appointment.doctorId, appointment.appointmentTime.date) == Returns([]))
  {
    match FindDoctorById(doctors, appointment.doctorId)
    case None => -1
    case Some(d) =>
      var free := DoctorAvailability(doctors, appointments, d.id, appointment.appointmentTime.date);
      if free.value == [] then 0 else 1
  }

  /** Validation answers 1 exactly when the doctor exists and publishes a slot
      that no appointment of the doctor takes on that date. */
  lemma ValidateAppointmentAccepts(doctors: seq<Doctor>, appointments: seq<AppointmentRecord>,
                                   appointment: AppointmentRecord)
    ensures ValidateAppointment(doctors, appointments, appointment) == 1 <==>
      FindDoctorById(doctors, appointment.doctorId).Some? &&
      exists slot :: slot in FindDoctorById(doctors, appointment.doctorId).value.availableTimes &&
        !Taken(appointments, appointment.doctorId, appointment.appointmentTime.date, slot)
  {
    if FindDoctorById(doctors, appointment.doctorId).Some? {
      var free := DoctorAvailability(doctors, appointments, appointment.doctorId, appointment.appointmentTime.date).value;
      var d := FindDoctorById(doctors, appointment.doctorId).value;
      if free != [] {
        AvailabilityMember(doctors, appointments, appointment.doctorId, appointment.appointmentTime.date, free[0]);
      }
      forall slot | slot in d.availableTimes &&
        !Taken(appointments, appointment.doctorId, appointment.appointmentTime.date, slot)
        ensures slot in free
      {
        AvailabilityMember(doctors, appointments, appointment.doctorId, appointment.appointmentTime.date, slot);
      }
    }
  }

  /** Only the date of the requested time matters: two requests for the same
      doctor on the same date are judged alike whatever their time of day. */
  lemma ValidateAppointmentIgnoresTimeOfDay(doctors: seq<Doctor>, appointments: seq<AppointmentRecord>,
                                            a: AppointmentRecord, t: LocalTime)
    ensures ValidateAppointment(doctors, appointments, a) ==
      ValidateAppointment(doctors, appointments, a.(appointmentTime := LocalDateTime(a.appointmentTime.date, t)))
  {
  }

  /** A request for a time that is already booked is still accepted when
      another slot of the day is free: the doctor publishing 09:00 and 10:00
      with 10:00 booked gets a second 10:00 request validated. */
  lemma ValidateAppointmentAcceptsBookedTime()
    ensures
      var doctor := Doctor(7, "Ada", "ada@clinic.org", "555", "Cardiology", ["09:00", "10:00"]);
      var booked := AppointmentRecord(3, 7, 5, LocalDateTime(100, LocalTime(10, 0, 0)), Scheduled);
      var request := AppointmentRecord(0, 7, 6, LocalDateTime(100, LocalTime(10, 0, 0)), Scheduled);
      ValidateAppointment([doctor], [booked], request) == 1
  {
    var doctor := Doctor(7, "Ada", "ada@clinic.org", "555", "Cardiology", ["09:00", "10:00"]);
    var booked := AppointmentRecord(3, 7, 5, LocalDateTime(100, LocalTime(10, 0, 0)), Scheduled);
    var request := AppointmentRecord(0, 7, 6, LocalDateTime(100, LocalTime(10, 0, 0)), Scheduled);
    LabelOfTen();
    assert "10:00"[1] != "09:00"[1];
    assert booked in [booked];
    assert !Taken([booked], 7, 100, "09:00");
    assert "09:00" in doctor.availableTimes;
    ValidateAppointmentAccepts([doctor], [booked], request);
  }

  /** `validatePatient(patient)`: true when no stored patient matches the
      lookup by email or phone. The lookup is given the patient's name where
      the email belongs. */
  function ValidatePatient(patients: seq<Patient>, patient: Patient): (r: Try<bool>)
    ensures r == Returns(true) <==> FindPatientByEmailOrPhone(patients, patient.name, patient.phone) == Returns(None)
    ensures var found := FindPatientByEmailOrPhone(patients, patient.name, patient.phone);
      r == Returns(false) <==> found.Returns? && found.value.Some?
  {
    match FindPatientByEmailOrPhone(patients, patient.name, patient.phone)
    case Throws => Throws
    case Returns(found) => Returns(found.None?)
  }

  /** The duplicate check never looks at the new patient's email: a patient
      whose email is already registered passes when its name and phone match
      nobody. */
  lemma ValidatePatientMissesTakenEmail(patients: seq<Patient>, patient: Patient)
    requires forall p :: p in patients ==> p.email != patient.name && p.phone != patient.phone
    ensures ValidatePatient(patients, patient) == Returns(true)
  {
    FilterNone(patients, (p: Patient) => p.email == patient.name || p.phone == patient.phone);
  }

  /** `validatePatientLogin(login)`: a token for the email when a patient has
      it, unauthorized when none has; the password is never compared. */
  function ValidatePatientLogin(patients: seq<Patient>, tokens: TokenService, login: Login): (r: Reply<string>)
    ensures var found := FindPatientByEmail(patients, login.email);
      r.Success? <==> found.Returns? && found.value.Some?
    ensures r.Success? ==> r == Success(Ok, tokens.generate(login.email))
    ensures r.Failure? <==> FindPatientByEmail(patients, login.email) == Returns(None)
    ensures r.Failure? ==> r.status == Unauthorized
  {
    match FindPatientByEmail(patients, login.email)
    case Throws => Thrown
    case Returns(None) => Failure(Unauthorized)
    case Returns(Some(_)) => Success(Ok, tokens.generate(login.email))
  }

  /** Any password logs a known patient in. */
  lemma ValidatePatientLoginIgnoresPassword(patients: seq<Patient>, tokens: TokenService,
                                            email: string, p: string, q: string)
    ensures ValidatePatientLogin(patients, tokens, Login(email, p)) == ValidatePatientLogin(patients, tokens, Login(email, q))
  {
  }

  /** The patient-service query `filterPatient` delegates to. */
  datatype PatientQuery =
    | ByDoctorAndCondition(condition: string, doctorName: string, patientId: nat)
    | ByCondition(condition: string, patientId: nat)
    | ByDoctor(doctorName: string, patientId: nat)

  /** The outcome of `filterPatient`: refused, handed to the patient service
      (whose reply is not part of this model), an empty appointment list, or
      an exception. */
  datatype PatientFilter = Refused | Delegated(query: PatientQuery) | NoAppointments | Raised

  /** `filterPatient(condition, name, token)`: the token is checked first;
      then the patient is looked up by the token's email, and the query is
      chosen by which filters are present — condition and doctor name, then
      condition, then doctor name — with neither giving an empty list. A
      query for a patient that is not stored dereferences null. */
  function FilterPatient(patients: seq<Patient>, tokens: TokenService,
                         condition: Option<string>, name: Option<string>, token: string): (r: PatientFilter)
    ensures r == Refused <==> !tokens.validate(token, "patient")
    ensures var email := tokens.extractIdentifier(token);
      (r == NoAppointments) ==
      (tokens.validate(token, "patient") && condition.None? && name.None? &&
       email.Some? && FindPatientByEmail(patients, email.value).Returns?)
    ensures var email := tokens.extractIdentifier(token);
      r.Delegated? ==
      (tokens.validate(token, "patient") && (condition.Some? || name.Some?) &&
       email.Some? && FindPatientByEmail(patients, email.value).Returns? && FindPatientByEmail(patients, email.value).value.Some?)
    ensures var email := tokens.extractIdentifier(token);
      (r == Raised) ==
      (tokens.validate(token, "patient") &&
       (email.None? || FindPatientByEmail(patients, email.value).Throws? ||
        ((condition.Some? || name.Some?) && FindPatientByEmail(patients, email.value) == Returns(None))))
    ensures r.Delegated? ==> condition.Some? || name.Some?
    ensures r.Delegated? && condition.Some? && name.Some? ==> r.query.ByDoctorAndCondition?
    ensures r.Delegated? && condition.Some? && name.None? ==> r.query.ByCondition?
    ensures r.Delegated? && condition.None? ==> r.query.ByDoctor?
    ensures r.Delegated? && !r.query.ByDoctor? ==> r.query.condition == condition.value
    ensures r.Delegated? && !r.query.ByCondition? ==> r.query.doctorName == name.value
    ensures r.Delegated? ==> tokens.extractIdentifier(token).Some?
    ensures r.Delegated? ==>
      var found := FindPatientByEmail(patients, tokens.extractIdentifier(token).value);
      found.Returns? && found.value.Some? && r.query.patientId == found.value.value.id
  {
    if !tokens.validate(token, "patient") then Refused
    else match tokens.extractIdentifier(token)
      case None => Raised
      case Some(email) =>
        match FindPatientByEmail(patients, email)
        case Throws => Raised
        case Returns(patient) =>
          if condition.None? && name.None? then NoAppointments
          else if patient.None? then Raised
          else if condition.Some? && name.Some? then Delegated(ByDoctorAndCondition(condition.value, name.value, patient.value.id))
          else if condition.Some? then Delegated(ByCondition(condition.value, patient.value.id))
          else Delegated(ByDoctor(name.value, patient.value.id))
  }

  /** Without filters a valid patient token gets the empty list, even when
      the token's email belongs to no stored patient. */
  lemma FilterPatientWithoutFilters(patients: seq<Patient>, tokens: TokenService, token: string, email: string)
    requires tokens.validate(token, "patient") && tokens.extractIdentifier(token) == Some(email)
    requires forall p :: p in patients ==> p.email != email
    ensures FilterPatient(patients, tokens, None, None, token) == NoAppointments
  {
    FilterNone(patients, (p: Patient) => p.email == email);
  }
}
