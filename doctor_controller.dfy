/** `DoctorController`: the doctor endpoints. Each checks the caller's token
    first where the endpoint is protected, then maps the doctor service's
    answer onto an HTTP status. */
module DoctorController {
  import opened Outcomes
  import opened Seqs
  import opened Tables
  import opened Text
  import opened Time
  import opened Models
  import opened Repositories
  import opened DoctorService
  import opened Service

  /** `GET /availability/{user}/{doctorId}/{date}/{token}`: the token must be
      valid for the role named in the path; then the free slots of the doctor
      on that date, or an exception for a doctor that is not stored. */
  function GetDoctorAvailability(doctors: seq<Doctor>, appointments: seq<AppointmentRecord>, tokens: TokenService,
                                 user: string, doctorId: nat, date: LocalDate, token: string): (r: Reply<seq<string>>)
    ensures !tokens.validate(token, user) ==> r == Failure(Unauthorized)
    ensures tokens.validate(token, user) ==> (r == Thrown <==> FindDoctorById(doctors, doctorId).None?)
    ensures r.Success? ==> r.status == Ok && r.body == DoctorAvailability(doctors, appointments, doctorId, date).value
    ensures tokens.validate(token, user) && FindDoctorById(doctors, doctorId).Some? ==>
      r == Success(Ok, DoctorAvailability(doctors, appointments, doctorId, date).value)
  {
    if ValidateToken(tokens, token, user) != Ok then Failure(Unauthorized)
    else match DoctorAvailability(doctors, appointments, doctorId, date)
      case Throws => Thrown
      case Returns(slots) => Success(Ok, slots)
  }

  /** A slot is listed exactly when the doctor publishes it and none of the
      doctor's appointments on that date carries its label. */
  lemma GetDoctorAvailabilityMember(doctors: seq<Doctor>, appointments: seq<AppointmentRecord>, tokens: TokenService,
                                    user: string, doctorId: nat, date: LocalDate, token: string, slot: string)
    requires GetDoctorAvailability(doctors, appointments, tokens, user, doctorId, date, token).Success?
    ensures FindDoctorById(doctors, doctorId).Some?
    ensures slot in GetDoctorAvailability(doctors, appointments, tokens, user, doctorId, date, token).body <==>
      slot in FindDoctorById(doctors, doctorId).value.availableTimes && !Taken(appointments, doctorId, date, slot)
  {
    AvailabilityMember(doctors, appointments, doctorId, date, slot);
  }

  /** `GET /`: every stored doctor (`findAll`), in table order. */
  function GetDoctor(doctors: seq<Doctor>): (r: Reply<seq<Doctor>>)
    ensures r.Success? && r.status == Ok && r.body == doctors
  {
    Success(Ok, doctors)
  }

  /** `POST /login`: the doctor login check of the doctor service — a token
      for a known email, unauthorized for an unknown one, an exception when
      the email lookup raises; the password is never compared. */
  function DoctorLogin(doctors: seq<Doctor>, tokens: TokenService, login: Login): (r: Reply<string>)
    ensures var found := FindDoctorByEmail(doctors, login.email);
      (found.Returns? && found.value.Some? ==> r == Success(Ok, tokens.generate(login.email))) &&
      (found == Returns(None) ==> r == Failure(Unauthorized)) &&
      (found.Throws? ==> r == Thrown)
  {
    ValidateDoctor(doctors, tokens, login)
  }

  /** `GET /filter/{name}/{time}/{speciality}`: a path variable spelled
      `null` in any case is absent; with all three absent every doctor is
      listed, otherwise the search of the shared service answers. */
  function FilterDoctors(doctors: seq<Doctor>, like: (string, string) -> bool,
                         name: string, time: string, speciality: string): (r: Reply<seq<Doctor>>)
    ensures r.Success? || r == Thrown
    ensures r.Success? ==> r.status == Ok && IsSubsequence(r.body, doctors)
    ensures r == Thrown ==> NullableParameter(time).Some?
    ensures NullableParameter(name).None? && NullableParameter(time).None? && NullableParameter(speciality).None? ==>
      r == Success(Ok, doctors)
  {
    var realName, realTime, realSpeciality := NullableParameter(name), NullableParameter(time), NullableParameter(speciality);
    if realName.None? && realTime.None? && realSpeciality.None? then
      SubsequenceOfItself(doctors);
      GetDoctor(doctors)
    else
      match FilterDoctor(doctors, like, realName, realSpeciality, realTime)
      case Throws => Thrown
      case Returns(found) =>
        FilterDoctorsIsSubsequence(doctors, like, realName, realSpeciality, realTime);
        Success(Ok, found)
  }

  /** Every sequence is a subsequence of itself. */
  lemma {:induction false} SubsequenceOfItself<T>(s: seq<T>)
    ensures IsSubsequence(s, s)
    decreases |s|
  {
    if s != [] {
      SubsequenceOfItself(s[1..]);
    }
  }

  /** With at least one filter given, the listed doctors are exactly those
      meeting the criterion chosen by priority and, when a time is given,
      having a slot in that half of the day; the search raises only when a
      time is given and some candidate's slot does not parse. */
  lemma FilterDoctorsSelects(doctors: seq<Doctor>, like: (string, string) -> bool,
                             name: string, time: string, speciality: string)
    requires NullableParameter(name).Some? || NullableParameter(time).Some? || NullableParameter(speciality).Some?
    ensures var n, t, s := NullableParameter(name), NullableParameter(time), NullableParameter(speciality);
      var r := FilterDoctors(doctors, like, name, time, speciality);
      (t.None? ==> r == Success(Ok, Filter(doctors, Criteria(like, n, s, t)))) &&
      (t.Some? && r.Success? ==> r.body == Filter(doctors, Both(Criteria(like, n, s, t), HasSlotInBucket(t.value)))) &&
      (t.Some? && (forall d :: d in doctors ==> SlotsParse(d)) ==> r.Success?)
  {
    var n, t, s := NullableParameter(name), NullableParameter(time), NullableParameter(speciality);
    DoctorService.FilterDoctorsSelects(doctors, like, n, s, t);
  }

  /** All three path variables `null` list every doctor, where the service
      search with no filter at all lists none. */
  lemma FilterDoctorsAllNull(doctors: seq<Doctor>, like: (string, string) -> bool)
    ensures FilterDoctors(doctors, like, "null", "NULL", "Null") == Success(Ok, doctors)
    ensures FilterDoctor(doctors, like, None, None, None) == Returns([])
  {
    assert EqualsIgnoreCase("null", "NULL") by {
      assert LowerCase("NULL") == "null";
    }
    assert EqualsIgnoreCase("null", "Null") by {
      assert LowerCase("Null") == "null";
    }
    assert EqualsIgnoreCase("null", "null") by {
      assert LowerCase("null") == "null";
    }
  }

  /** `POST /{token}`: an admin token is required; then the service's answer
      becomes created (1), conflict (-1, the email is taken) or an internal
      error (anything else). */
  method SaveDoctor(doctors: Repository<Doctor>, tokens: TokenService, token: string, doctor: Doctor, fault: bool)
    returns (r: Status)
    requires IsDoctorTable(doctors)
    modifies doctors
    ensures IsDoctorTable(doctors)
    ensures var found := old(FindDoctorByEmail(doctors.rows, doctor.email));
      r == if !tokens.validate(token, "admin") then Unauthorized
           else if found.Returns? && found.value.Some? then Conflict
           else if found == Returns(None) && !fault then Created
           else InternalServerError
    ensures r != Created ==> doctors.rows == old(doctors.rows) && doctors.nextId == old(doctors.nextId)
    ensures r == Created ==> doctors.rows == old(doctors.RowsAfterSave(doctor))
    ensures r == Created ==>
      doctors.nextId == if HasKey(old(doctors.rows), DoctorId, doctor.id) then old(doctors.nextId) else old(doctors.nextId) + 1
    ensures UniqueEmails(old(doctors.rows)) ==> UniqueEmails(doctors.rows)
  {
    if ValidateToken(tokens, token, "admin") != Ok {
      return Unauthorized;
    }
    var code := DoctorService.SaveDoctor(doctors, doctor, fault);
    r := if code == 1 then Created else if code == -1 then Conflict else InternalServerError;
  }

  /** `PUT /{token}`: an admin token is required; then the service's answer
      becomes OK (1), not found (-1, no doctor has the email) or an internal
      error (anything else). */
  method UpdateDoctor(doctors: Repository<Doctor>, tokens: TokenService, token: string, doctor: Doctor, fault: bool)
    returns (r: Status)
    requires IsDoctorTable(doctors)
    modifies doctors
    ensures IsDoctorTable(doctors)
    ensures var found := old(FindDoctorByEmail(doctors.rows, doctor.email));
      r == if !tokens.validate(token, "admin") then Unauthorized
           else if found == Returns(None) then NotFound
           else if found.Returns? && !fault then Ok
           else InternalServerError
    ensures r != Ok ==> doctors.rows == old(doctors.rows) && doctors.nextId == old(doctors.nextId)
    ensures r == Ok ==>
      var db := old(FindDoctorByEmail(doctors.rows, doctor.email)).value.value;
      doctors.rows == ReplaceByKey(old(doctors.rows), DoctorId, doctor.(id := db.id)) &&
      FindDoctorById(doctors.rows, db.id) == Some(doctor.(id := db.id))
    ensures UniqueEmails(old(doctors.rows)) ==> UniqueEmails(doctors.rows)
  {
    if ValidateToken(tokens, token, "admin") != Ok {
      return Unauthorized;
    }
    var code := DoctorService.UpdateDoctor(doctors, doctor, fault);
    r := if code == 1 then Ok else if code == -1 then NotFound else InternalServerError;
  }

  /** `DELETE /{id}/{token}`: an admin token is required; then the service's
      answer becomes OK (1), not found (-1) or an internal error (anything
      else). A refused token changes neither table. */
  method DeleteDoctor(doctors: Repository<Doctor>, appointments: Repository<AppointmentRecord>, tokens: TokenService,
                      id: nat, token: string, appointmentsFault: bool, doctorFault: bool) returns (r: Status)
    requires IsDoctorTable(doctors) && IsAppointmentTable(appointments)
    modifies doctors, appointments
    ensures IsDoctorTable(doctors) && IsAppointmentTable(appointments)
    ensures var found := old(FindDoctorById(doctors.rows, id));
      r == if !tokens.validate(token, "admin") then Unauthorized
           else if found.None? then NotFound
           else if !appointmentsFault && !doctorFault then Ok
           else InternalServerError
    ensures r == Unauthorized || r == NotFound ==>
      doctors.rows == old(doctors.rows) && appointments.rows == old(appointments.rows)
    ensures r == Ok ==>
      doctors.rows == RemoveByKey(old(doctors.rows), DoctorId, id) &&
      appointments.rows == Filter(old(appointments.rows), Not(OfDoctor(id)))
    ensures r == InternalServerError ==> doctors.rows == old(doctors.rows)
    ensures r == InternalServerError && appointmentsFault ==> appointments.rows == old(appointments.rows)
    ensures r == InternalServerError && !appointmentsFault ==>
      appointments.rows == Filter(old(appointments.rows), Not(OfDoctor(id)))
    ensures doctors.nextId == old(doctors.nextId) && appointments.nextId == old(appointments.nextId)
    ensures NoOrphans(old(doctors.rows), old(appointments.rows)) ==> NoOrphans(doctors.rows, appointments.rows)
  {
    if ValidateToken(tokens, token, "admin") != Ok {
      return Unauthorized;
    }
    var code := DoctorService.DeleteDoctor(doctors, appointments, id, appointmentsFault, doctorFault);
    r := if code == 1 then Ok else if code == -1 then NotFound else InternalServerError;
  }
}
