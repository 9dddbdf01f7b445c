/** The entities of the clinic: doctors with their published daily slots,
    patients, admins, login credentials, and appointments. */
module Models {
  import opened Time

  /** A doctor; `availableTimes` is the published daily template of slot
      labels (normally `HH:MM`), in the order the doctor listed them. */
  datatype Doctor = Doctor(
    id: nat,
    name: string,
    email: string,
    phone: string,
    specialty: string,
    availableTimes: seq<string>)

  datatype Patient = Patient(id: nat, name: string, email: string, phone: string)

  datatype Admin = Admin(username: string, password: string)

  datatype Login = Login(email: string, password: string)

  /** Appointment status codes. */
  const Scheduled: int := 0
  const Completed: int := 1

  /** The persisted value of an appointment: the row of the appointment table,
      and the request body of the booking and update endpoints. The doctor and
      the patient are many-to-one references without cascade: a save stores
      only their ids, and a read sees the stored doctor and patient. */
  datatype AppointmentRecord = AppointmentRecord(
    id: nat,
    doctorId: nat,
    patientId: nat,
    appointmentTime: LocalDateTime,
    status: int)

  /** The appointment entity as loaded into memory: its setters update one
      field each, and its derived time values are computed from
      `appointmentTime` on demand. */
  class Appointment {
    var id: nat
    var doctorId: nat
    var patientId: nat
    var appointmentTime: LocalDateTime
    var status: int

    constructor FromRecord(r: AppointmentRecord)
      ensures Record() == r
    {
      id := r.id;
      doctorId := r.doctorId;
      patientId := r.patientId;
      appointmentTime := r.appointmentTime;
      status := r.status;
    }

    /** The entity's field values, as they are saved. */
    function Record(): AppointmentRecord
      reads this
    {
      AppointmentRecord(id, doctorId, patientId, appointmentTime, status)
    }

    /** `getEndTime`: one hour after the start, the next hour of the same day
        or, from 23:00 on, the first hour of the next day. */
    function EndTime(): (r: LocalDateTime)
      reads this
      ensures IsBefore(appointmentTime, r)
      ensures r.time.minute == appointmentTime.time.minute && r.time.second == appointmentTime.time.second
      ensures appointmentTime.time.hour < 23 ==> r.date == appointmentTime.date && r.time.hour == appointmentTime.time.hour + 1
      ensures appointmentTime.time.hour == 23 ==> r.date == appointmentTime.date + 1 && r.time.hour == 0
    {
      PlusOneHour(appointmentTime);
      PlusHours(appointmentTime, 1)
    }

    /** `getAppointmentDate`: the date part of the start. */
    function AppointmentDate(): (d: LocalDate)
      reads this
      ensures WithinDay(appointmentTime, d)
    {
      WithinDayIffSameDate(appointmentTime, ToLocalDate(appointmentTime));
      ToLocalDate(appointmentTime)
    }

    /** `getAppointmentTimeOnly`: the time-of-day part of the start; together
        with the date part it gives the start back. */
    function AppointmentTimeOnly(): (t: LocalTime)
      reads this
      ensures Of(AppointmentDate(), t) == appointmentTime
    {
      ToLocalTime(appointmentTime)
    }

    method SetId(newId: nat)
      modifies this
      ensures Record() == old(Record()).(id := newId)
    {
      id := newId;
    }

    method SetDoctor(newDoctorId: nat)
      modifies this
      ensures Record() == old(Record()).(doctorId := newDoctorId)
    {
      doctorId := newDoctorId;
    }

    /** `setPatient`: the appointment now references `newPatient`; what is
        saved of it is its id. */
    method SetPatient(newPatient: Patient)
      modifies this
      ensures Record() == old(Record()).(patientId := newPatient.id)
    {
      patientId := newPatient.id;
    }

    method SetAppointmentTime(newTime: LocalDateTime)
      modifies this
      ensures Record() == old(Record()).(appointmentTime := newTime)
    {
      appointmentTime := newTime;
    }

    method SetStatus(newStatus: int)
      modifies this
      ensures Record() == old(Record()).(status := newStatus)
    {
      status := newStatus;
    }
  }
}
