/** `AppointmentController`: the appointment endpoints. Each checks the
    caller's token for its role first, then hands over to the appointment
    service. */
module AppointmentController {
  import opened Outcomes
  import opened Seqs
  import opened Tables
  import opened Text
  import opened Time
  import opened Models
  import opened Repositories
  import opened DoctorService
  import opened Service
  import opened AppointmentService

  /** `GET /{date}/{patientName}/{token}`: a doctor token is required; a
      patient name spelled `null` in any case means no name filter. The
      service then checks the same token again, so a token that passed here
      gets the service's listing, or the exception the service raises. */
  function GetAppointments(doctors: seq<Doctor>, patients: seq<Patient>, appointments: seq<AppointmentRecord>,
                           tokens: TokenService, date: LocalDate, patientName: string, token: string): (r: Reply<Listing>)
    ensures !tokens.validate(token, "doctor") ==> r == Failure(Unauthorized)
    ensures r.Failure? ==> !tokens.validate(token, "doctor")
    ensures var listing := AppointmentsFor(doctors, patients, appointments, tokens, NullableParameter(patientName), date, token);
      tokens.validate(token, "doctor") ==>
        (r == Thrown <==> listing == Throws) &&
        (listing.Returns? ==> listing.value.Appointments? && r == Success(Ok, listing.value))
  {
    if ValidateToken(tokens, token, "doctor") != Ok then Failure(Unauthorized)
    else match AppointmentsFor(doctors, patients, appointments, tokens, NullableParameter(patientName), date, token)
      case Throws => Thrown
      case Returns(listing) => Success(Ok, listing)
  }

  /** A listing the endpoint answers holds exactly the appointments, dated
      `date`, of the doctor whose email the token carries, narrowed to stored
      patient names containing the given name unless it is `null` or blank. */
  lemma GetAppointmentsMember(doctors: seq<Doctor>, patients: seq<Patient>, appointments: seq<AppointmentRecord>,
                              tokens: TokenService, date: LocalDate, patientName: string, token: string,
                              a: AppointmentRecord)
    requires GetAppointments(doctors, patients, appointments, tokens, date, patientName, token).Success?
    ensures tokens.extractIdentifier(token).Some?
    ensures GetAppointments(doctors, patients, appointments, tokens, date, patientName, token).body.Appointments?
    ensures var found := FindDoctorByEmail(doctors, tokens.extractIdentifier(token).value);
      var filtered := !EqualsIgnoreCase("null", patientName) && !IsBlank(patientName);
      found.Returns? && found.value.Some? && found.value.value.email == tokens.extractIdentifier(token).value &&
      (a in GetAppointments(doctors, patients, appointments, tokens, date, patientName, token).body.list <==>
        a in appointments && a.doctorId == found.value.value.id && a.appointmentTime.date == date &&
        (filtered ==> NameContains(patients, a, patientName)))
  {
    AppointmentsForListsDoctorsDay(doctors, patients, appointments, tokens, NullableParameter(patientName), date, token, a);
  }

  /** `POST /{token}`: a patient token is required; the appointment must pass
      validation (code 1) or the request is bad; then it is booked, created
      when the store accepts it and an internal error when it fails. */
  method BookAppointment(doctors: Repository<Doctor>, appointments: Repository<AppointmentRecord>, tokens: TokenService,
                         token: string, appointment: AppointmentRecord, fault: bool) returns (r: Status)
    requires IsDoctorTable(doctors) && IsAppointmentTable(appointments)
    modifies appointments
    ensures IsAppointmentTable(appointments)
    ensures r == if !tokens.validate(token, "patient") then Unauthorized
                 else if old(ValidateAppointment(doctors.rows, appointments.rows, appointment)) != 1 then BadRequest
                 else if fault then InternalServerError
                 else Created
    ensures r != Created ==> appointments.rows == old(appointments.rows) && appointments.nextId == old(appointments.nextId)
    ensures r == Created ==> appointments.rows == old(appointments.RowsAfterSave(appointment))
    ensures r == Created ==>
      appointments.nextId == if HasKey(old(appointments.rows), AppointmentId, appointment.id) then old(appointments.nextId)
                             else old(appointments.nextId) + 1
    ensures r == Created ==>
      var doctor := FindDoctorById(doctors.rows, appointment.doctorId);
      doctor.Some? &&
      exists slot :: slot in doctor.value.availableTimes &&
        !Taken(old(appointments.rows), appointment.doctorId, appointment.appointmentTime.date, slot)
  {
    if ValidateToken(tokens, token, "patient") != Ok {
      return Unauthorized;
    }
    if ValidateAppointment(doctors.rows, appointments.rows, appointment) != 1 {
      return BadRequest;
    }
    ValidateAppointmentAccepts(doctors.rows, appointments.rows, appointment);
    var code := AppointmentService.BookAppointment(appointments, appointment, fault);
    r := if code == 1 then Created else InternalServerError;
  }

  /** `PUT /{token}`: a patient token is required; then the update of the
      appointment service answers. */
  method UpdateAppointment(doctors: Repository<Doctor>, appointments: Repository<AppointmentRecord>, tokens: TokenService,
                           token: string, appointment: AppointmentRecord) returns (r: Status)
    requires IsDoctorTable(doctors) && IsAppointmentTable(appointments)
    modifies appointments
    ensures IsAppointmentTable(appointments)
    ensures var found := old(FindAppointmentById(appointments.rows, appointment.id));
      var code := old(ValidateAppointment(doctors.rows, appointments.rows, appointment));
      r == if !tokens.validate(token, "patient") then Unauthorized
           else if found.None? then NotFound
           else if code != 1 then BadRequest
           else Ok
    ensures r != Ok ==> appointments.rows == old(appointments.rows)
    ensures r == Ok ==> appointments.rows == ReplaceByKey(old(appointments.rows), AppointmentId, appointment)
    ensures appointments.nextId == old(appointments.nextId)
  {
    if ValidateToken(tokens, token, "patient") != Ok {
      return Unauthorized;
    }
    r := AppointmentService.UpdateAppointment(doctors, appointments, appointment);
  }

  /** `DELETE /{id}/{token}`: a patient token is required; then the
      appointment is cancelled. The service checks the same token again, so
      with a token that passed here a stored appointment is always removed
      and OK answered — whichever patient it belongs to. */
  method CancelAppointment(appointments: Repository<AppointmentRecord>, tokens: TokenService,
                           id: nat, token: string) returns (r: Try<Status>)
    requires IsAppointmentTable(appointments)
    modifies appointments
    ensures IsAppointmentTable(appointments)
    ensures !tokens.validate(token, "patient") ==>
      r == Returns(Unauthorized) && appointments.rows == old(appointments.rows)
    ensures tokens.validate(token, "patient") && old(FindAppointmentById(appointments.rows, id)).None? ==>
      r == Throws && appointments.rows == old(appointments.rows)
    ensures tokens.validate(token, "patient") && old(FindAppointmentById(appointments.rows, id)).Some? ==>
      r == Returns(Ok) && appointments.rows == RemoveByKey(old(appointments.rows), AppointmentId, id)
    ensures appointments.nextId == old(appointments.nextId)
  {
    if ValidateToken(tokens, token, "patient") != Ok {
      return Returns(Unauthorized);
    }
    r := AppointmentService.CancelAppointment(appointments, tokens, id, token);
  }
}
