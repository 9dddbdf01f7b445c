# Clinic backend — doctors and appointments

A Dafny model of the doctor and appointment core of a Spring clinic
backend. It covers the following:

- doctor availability: a doctor's published daily slots minus the labels of
  that day's bookings;
- the doctor search by name, specialty and AM/PM half of the day;
- doctor registration, update, deletion and login;
- the shared checks of `Service`: tokens, admin and patient logins, the
  booking validation code, the patient duplicate check and the choice of
  patient filter;
- booking, updating, cancelling and listing appointments, and changing their status;
- the `Appointment` entity;
- the two controllers that map these answers onto HTTP statuses.

The tables are `Repository` objects whose `Save`, `Delete` and `DeleteWhere`
methods change their rows the way JPA does. The methods that change the
tables are proved against functions of the old rows (`RowsAfterSave`,
`ReplaceByKey`, `RemoveByKey`, `StatusChanged`). The finder queries, the
search and the validations are functions. Their contracts and lemmas state
what they answer, for every input, including the branches that raise an
exception (`Throws`/`Thrown`).

Modules, one per file: `Outcomes` (option, exception, HTTP reply and the
token library as a parameter), `Seqs`, `Tables`, `Text` (the `String` and
`Integer` operations used), `Time`, `Models`, `Repositories`,
`DoctorService`, `Service`, `AppointmentService`, `DoctorController`,
`AppointmentController`.

Conventions:
- An appointment references its doctor and its patient by id, as the
  `@ManyToOne` references without cascade are saved; the patient-name filter
  reads the name of the stored patient.
- Ids are naturals. Generated ids start at 1, so id 0 stands for the null id
  of an entity that was never saved.
- A `fault` flag stands for a store operation that raises and is caught, so
  that the service answers 0.
- `deleteDoctor` is not transactional, so it takes one flag per delete.

## Model

| member | source | states |
|---|---|---|
| Models.Appointment.EndTime | src/main/java/com/project/back_end/models/Appointment.java:94-96 | the end time is one hour after the start: strictly later, same minute and second, the next hour of the same day or hour 0 of the next day |
| Models.Appointment.AppointmentDate | src/main/java/com/project/back_end/models/Appointment.java:99-101 | the date part of the appointment time; the appointment lies in that date's `[00:00:00, 23:59:59]` window |
| Models.Appointment.AppointmentTimeOnly | src/main/java/com/project/back_end/models/Appointment.java:104-106 | the time part; recombined with the date it gives back the appointment time |
| Models.Appointment.SetId | src/main/java/com/project/back_end/models/Appointment.java:123-125 | only the id changes |
| Models.Appointment.SetDoctor | src/main/java/com/project/back_end/models/Appointment.java:133-135 | only the doctor reference changes |
| Models.Appointment.SetPatient | src/main/java/com/project/back_end/models/Appointment.java:143-145 | only the patient reference changes, to the given patient's id |
| Models.Appointment.SetAppointmentTime | src/main/java/com/project/back_end/models/Appointment.java:153-155 | only the appointment time changes |
| Models.Appointment.SetStatus | src/main/java/com/project/back_end/models/Appointment.java:163-165 | only the status changes |
| Repositories.Repository.Save | app/src/main/java/com/project/back_end/services/AppointmentService.java:101 | JPA `save` is an upsert by id: a stored id is replaced in place, a new entity gets the next generated id; the table keeps unique positive ids and the saved row is then found by its id |
| Repositories.Repository.Delete | app/src/main/java/com/project/back_end/services/DoctorService.java:230 | `delete` removes the row with the entity's id (a missing row is a no-op); the id is then not found and unique ids are kept |
| Repositories.Repository.DeleteWhere | app/src/main/java/com/project/back_end/services/DoctorService.java:229 | `deleteAllByDoctorId` removes exactly the matching rows and keeps every other one, in order |
| Repositories.FindDoctorByEmailNone | app/src/main/java/com/project/back_end/services/DoctorService.java:191 | `findByEmail` returns null exactly when no stored doctor has the email |
| Repositories.FindDoctorByEmailSome | app/src/main/java/com/project/back_end/services/DoctorService.java:205 | a doctor returned by `findByEmail` is stored and has that email |
| Repositories.FindDoctorByEmailUnique | app/src/main/java/com/project/back_end/services/DoctorService.java:242 | with unique emails `findByEmail` returns the one doctor having the email |
| Repositories.AppointmentsOnDayMember | app/src/main/java/com/project/back_end/services/DoctorService.java:172-176 | the `[date 00:00:00, date 23:59:59]` query returns exactly the doctor's appointments dated `date` |
| Tables.SingleResult | app/src/main/java/com/project/back_end/services/DoctorService.java:191 | a single-result finder: null for no match, the row for one, an exception for several |
| Tables.FindByKey | app/src/main/java/com/project/back_end/services/DoctorService.java:168 | `findById`: empty exactly when no row has the id; a found row has it |
| Tables.RemoveByKeyTwice | app/src/main/java/com/project/back_end/services/AppointmentService.java:148 | the second `delete` of the cancelled appointment removes nothing more |
| Text.BeforeColon | app/src/main/java/com/project/back_end/services/DoctorService.java:335 | `split(":")[0]`: the longest colon-free prefix, followed by a colon when shorter than the text |
| Text.ParseInt | app/src/main/java/com/project/back_end/services/DoctorService.java:335 | `Integer.parseInt`: a value only for an optional sign followed by digits only, always within 32-bit range; every such string of up to nine digits parses |
| Text.ParseIntToString | app/src/main/java/com/project/back_end/services/DoctorService.java:335 | every 32-bit integer rendered in decimal parses back to itself |
| Text.LeadingZeroValue | app/src/main/java/com/project/back_end/services/DoctorService.java:335 | a leading zero does not change the value read, so a zero-padded rendering reads as the unpadded one |
| Text.DecimalValue | app/src/main/java/com/project/back_end/services/DoctorService.java:335 | the decimal digits of a number read back as that number |
| Text.ParseTwoDigits | app/src/main/java/com/project/back_end/services/DoctorService.java:335 | a two-digit hour label parses back to its hour |
| Time.WithinDayIffSameDate | app/src/main/java/com/project/back_end/services/DoctorService.java:172-176 | the day window holds exactly the date-times of that date |
| Time.Label | app/src/main/java/com/project/back_end/services/DoctorService.java:180 | `toLocalTime().toString().substring(0, 5)`: five characters: the two-digit hour, a colon, the two-digit minute |
| Time.LabelInjective | app/src/main/java/com/project/back_end/services/DoctorService.java:180 | two times share a label exactly when they agree to the minute |
| DoctorService.DoctorAvailability | app/src/main/java/com/project/back_end/services/DoctorService.java:165-186 | raises exactly when the doctor id is unknown (`Optional.get`) |
| DoctorService.BookedLabelsMember | app/src/main/java/com/project/back_end/services/DoctorService.java:179-181 | a label is booked exactly when some appointment of the doctor on that date starts at a time with that label |
| DoctorService.AvailabilityMember | app/src/main/java/com/project/back_end/services/DoctorService.java:183-185 | a slot is offered exactly when the doctor publishes it and it is not booked that day |
| DoctorService.AvailabilityIsSubsequence | app/src/main/java/com/project/back_end/services/DoctorService.java:183-185 | the offered slots keep the published order |
| DoctorService.AvailabilityWithoutBookings | app/src/main/java/com/project/back_end/services/DoctorService.java:165-186 | with no appointment of the doctor that day every published slot is offered |
| DoctorService.AvailabilityExample | app/src/main/java/com/project/back_end/services/DoctorService.java:165-186 | slots 09:00, 10:00, 11:00 with a 10:00 booking offer 09:00 and 11:00 |
| DoctorService.LabelHour | app/src/main/java/com/project/back_end/services/DoctorService.java:335 | a booked time's label parses back to its hour |
| DoctorService.FilterDoctorByTime | app/src/main/java/com/project/back_end/services/DoctorService.java:331-340 | raises exactly when some doctor's search meets an unparseable slot before a match; otherwise keeps exactly the doctors with a slot in the AM/PM half, in order |
| DoctorService.AnySlotInBucketExact | app/src/main/java/com/project/back_end/services/DoctorService.java:333-338 | with parseable slots, `anyMatch` answers whether some slot's hour is in the half |
| DoctorService.AnySlotInBucketRaises | app/src/main/java/com/project/back_end/services/DoctorService.java:333-338 | `anyMatch` raises only when some slot's hour does not parse |
| DoctorService.AnySlotInOtherBucket | app/src/main/java/com/project/back_end/services/DoctorService.java:336-337 | a bucket other than AM or PM matches no slot |
| DoctorService.FilterDoctorByTimeExact | app/src/main/java/com/project/back_end/services/DoctorService.java:331-340 | with parseable slots the time filter never raises and keeps exactly the doctors with a slot in the half |
| DoctorService.FilterDoctorByTimeOtherBucket | app/src/main/java/com/project/back_end/services/DoctorService.java:331-340 | any bucket other than AM/PM gives an empty list (or raises on a bad slot) |
| DoctorService.InBucketIgnoresCase | app/src/main/java/com/project/back_end/services/DoctorService.java:336-337 | the bucket name is compared ignoring case |
| DoctorService.FilterDoctorsByNameSpecilityAndTime | app/src/main/java/com/project/back_end/services/DoctorService.java:263-286 | without a time it never raises; with no filter at all it answers an empty list |
| DoctorService.BaseSetIsFilter | app/src/main/java/com/project/back_end/services/DoctorService.java:268-278 | the base list is the store filtered by the criterion chosen in priority order name+specialty, name, specialty, time, none |
| DoctorService.FilterDoctorsSelects | app/src/main/java/com/project/back_end/services/DoctorService.java:263-286 | the result is exactly the doctors meeting the chosen criterion and, with a time, having a slot in that half; with parseable slots it never raises |
| DoctorService.FilterDoctorsIsSubsequence | app/src/main/java/com/project/back_end/services/DoctorService.java:263-286 | every result is a stored doctor, in store order |
| DoctorService.FindDoctorByName | app/src/main/java/com/project/back_end/services/DoctorService.java:254-261 | the `findByNameLike` answer is the search with only a name |
| DoctorService.FilterDoctorByNameAndTime | app/src/main/java/com/project/back_end/services/DoctorService.java:288-294 | equals the search with name and time |
| DoctorService.FilterDoctorByNameAndSpecility | app/src/main/java/com/project/back_end/services/DoctorService.java:296-303 | equals the search with name and specialty |
| DoctorService.FilterDoctorByTimeAndSpecility | app/src/main/java/com/project/back_end/services/DoctorService.java:305-312 | equals the search with specialty and time |
| DoctorService.FilterDoctorBySpecility | app/src/main/java/com/project/back_end/services/DoctorService.java:314-321 | equals the search with only a specialty |
| DoctorService.FilterDoctorsByTime | app/src/main/java/com/project/back_end/services/DoctorService.java:323-329 | equals the search with only a time |
| DoctorService.SaveNewEmail | app/src/main/java/com/project/back_end/services/DoctorService.java:191-195 | saving a doctor with an unused email makes the email find exactly the saved row and keeps emails unique |
| DoctorService.SaveDoctor | app/src/main/java/com/project/back_end/services/DoctorService.java:188-200 | -1 iff the email is taken, 1 iff it is free and the store succeeds, 0 otherwise; only 1 changes the table, to the upsert of the doctor, and advances the generated id only for a new row; unique emails are kept |
| DoctorService.ReplaceSameEmail | app/src/main/java/com/project/back_end/services/DoctorService.java:205-210 | replacing the row of the doctor found by email with the incoming doctor under that id keeps emails unique |
| DoctorService.UpdateDoctor | app/src/main/java/com/project/back_end/services/DoctorService.java:202-216 | -1 iff no doctor has the email, 1 iff one does and the store succeeds, 0 otherwise; 1 replaces that row with the incoming doctor under the stored id |
| DoctorService.DeleteDoctor | app/src/main/java/com/project/back_end/services/DoctorService.java:223-236 | -1 iff the id is absent, 1 iff present and both deletes succeed; the doctor's appointments go before the doctor; no appointment is left without its doctor |
| DoctorService.ValidateDoctor | app/src/main/java/com/project/back_end/services/DoctorService.java:238-252 | a token iff the email finds a doctor, unauthorized iff it finds none |
| DoctorService.ValidateDoctorIgnoresPassword | app/src/main/java/com/project/back_end/services/DoctorService.java:238-252 | the password never changes the answer |
| Service.ValidateToken | app/src/main/java/com/project/back_end/services/Service.java:129-138 | OK exactly when the token is valid for the role, otherwise unauthorized |
| Service.ValidateAdmin | app/src/main/java/com/project/back_end/services/Service.java:140-153 | a token iff the stored admin's password matches; unauthorized on a mismatch; an unknown username, or a lookup that raises, raises |
| Service.ValidateAdminUnknown | app/src/main/java/com/project/back_end/services/Service.java:143-144 | an unknown admin username raises instead of being refused |
| Service.FilterDoctor | app/src/main/java/com/project/back_end/services/Service.java:155-157 | delegates to the doctor search |
| Service.ValidateAppointment | app/src/main/java/com/project/back_end/services/Service.java:159-174 | -1 iff the doctor is unknown, 0 iff the doctor has no free slot that date, 1 otherwise |
| Service.ValidateAppointmentAccepts | app/src/main/java/com/project/back_end/services/Service.java:159-174 | 1 exactly when the doctor exists and some published slot is not booked that date |
| Service.ValidateAppointmentIgnoresTimeOfDay | app/src/main/java/com/project/back_end/services/Service.java:167 | only the date of the requested time matters |
| Service.ValidateAppointmentAcceptsBookedTime | app/src/main/java/com/project/back_end/services/Service.java:159-174 | a request for an already booked time is accepted while another slot is free |
| Service.ValidatePatient | app/src/main/java/com/project/back_end/services/Service.java:176-180 | true iff the email-or-phone lookup (given the name as email) finds nobody, false iff it finds one |
| Service.ValidatePatientMissesTakenEmail | app/src/main/java/com/project/back_end/services/Service.java:178 | a taken email passes when name and phone match nobody |
| Service.ValidatePatientLogin | app/src/main/java/com/project/back_end/services/Service.java:182-195 | a token iff the email finds a patient, unauthorized iff it finds none |
| Service.ValidatePatientLoginIgnoresPassword | app/src/main/java/com/project/back_end/services/Service.java:182-195 | the password never changes the answer |
| Service.FilterPatient | app/src/main/java/com/project/back_end/services/Service.java:197-223 | refused iff the token is not a patient's; delegated iff a filter is given and the token's email finds a patient, with the query chosen by priority condition+name, condition, name carrying the given values and that patient's id; the empty list iff no filter is given and the lookup does not raise; an exception otherwise |
| Service.FilterPatientWithoutFilters | app/src/main/java/com/project/back_end/services/Service.java:209-221 | without filters a valid token gets the empty list even for an unknown patient |
| AppointmentService.BookAppointment | app/src/main/java/com/project/back_end/services/AppointmentService.java:98-108 | 1 and the appointment upserted, the generated id advancing only for a new row, or 0 with nothing saved when the store fails; the saved row is then found by its id |
| AppointmentService.UpdateAppointment | app/src/main/java/com/project/back_end/services/AppointmentService.java:110-129 | not found iff the id is absent, bad request iff validation is not 1, otherwise OK with the stored row replaced by the incoming one; only OK changes the table |
| AppointmentService.UpdateSeesItsOwnBooking | app/src/main/java/com/project/back_end/services/AppointmentService.java:121-124 | validation counts the appointment being updated as a booking, so a doctor whose only slot is its time refuses the unchanged update |
| AppointmentService.CancelAppointment | app/src/main/java/com/project/back_end/services/AppointmentService.java:131-151 | an absent id raises with nothing changed; otherwise the row is deleted before the token check, and the answer is OK or unauthorized by the token alone |
| AppointmentService.GetAppointments | app/src/main/java/com/project/back_end/services/AppointmentService.java:153-182 | answers exactly the listing the specification function `AppointmentsFor` describes |
| AppointmentService.RemoveIfNameMissing | app/src/main/java/com/project/back_end/services/AppointmentService.java:175-178 | `removeIf` keeps, in order, exactly the appointments whose stored patient's name contains the name ignoring case; it raises when an appointment's patient is not stored |
| AppointmentService.DayListingMember | app/src/main/java/com/project/back_end/services/AppointmentService.java:166-178 | listed iff the doctor's, dated `date`, and with a non-blank name its stored patient's name contains it ignoring case |
| AppointmentService.DayListingThrows | app/src/main/java/com/project/back_end/services/AppointmentService.java:175-178 | the listing raises iff the name filter applies and one of the doctor's appointments that day references a patient that is not stored |
| AppointmentService.NameFilterReadsStoredPatient | app/src/main/java/com/project/back_end/services/AppointmentService.java:177 | the filter depends only on the referenced patient id, so the name a booking request carried plays no part |
| AppointmentService.NameFilteredMember | app/src/main/java/com/project/back_end/services/AppointmentService.java:177 | the name filter keeps exactly the appointments whose stored patient's name contains the name ignoring case, and all of them when the name is absent or blank |
| AppointmentService.DayListingIsSubsequence | app/src/main/java/com/project/back_end/services/AppointmentService.java:166-178 | the listing keeps the table's order |
| AppointmentService.DayListingBlankName | app/src/main/java/com/project/back_end/services/AppointmentService.java:175 | a blank name lists the whole day of the doctor, as no name does |
| AppointmentService.AppointmentsForInvalidToken | app/src/main/java/com/project/back_end/services/AppointmentService.java:158-164 | a non-doctor token gets the error entry once the email lookup has not raised |
| AppointmentService.AppointmentsForListsDoctorsDay | app/src/main/java/com/project/back_end/services/AppointmentService.java:153-182 | a listing belongs to the doctor the token's email finds, and holds exactly that doctor's filtered appointments of the day |
| AppointmentService.ChangeStatus | app/src/main/java/com/project/back_end/services/AppointmentService.java:184-194 | the table becomes the status change of the id: nothing for an absent id, else only that row's status |
| AppointmentService.SaveIsStatusChange | app/src/main/java/com/project/back_end/services/AppointmentService.java:191-193 | saving the loaded appointment with the new status is the status change |
| AppointmentService.StatusChangedAbsent | app/src/main/java/com/project/back_end/services/AppointmentService.java:186-189 | an absent id changes nothing |
| AppointmentService.StatusChangedIdempotent | app/src/main/java/com/project/back_end/services/AppointmentService.java:184-194 | setting the same status twice is setting it once |
| AppointmentService.StatusChangedOnlyStatus | app/src/main/java/com/project/back_end/services/AppointmentService.java:192 | every row keeps all fields but the status, and other ids keep theirs |
| AppointmentService.StatusChangedFind | app/src/main/java/com/project/back_end/services/AppointmentService.java:184-194 | the appointment is then found with the new status |
| DoctorController.GetDoctorAvailability | app/src/main/java/com/project/back_end/controllers/DoctorController.java:89-98 | unauthorized iff the token is not valid for the path's role; with a valid token, raises iff the doctor is unknown and otherwise OK with the doctor's free slots that date |
| DoctorController.GetDoctor | app/src/main/java/com/project/back_end/controllers/DoctorController.java:100-104 | OK with every stored doctor, in table order |
| DoctorController.DoctorLogin | app/src/main/java/com/project/back_end/controllers/DoctorController.java:122-125 | the doctor login: a token for a known email, unauthorized for an unknown one, an exception when the lookup raises |
| DoctorController.GetDoctorAvailabilityMember | app/src/main/java/com/project/back_end/controllers/DoctorController.java:89-98 | a listed slot is published and not booked that date, and conversely |
| DoctorController.FilterDoctors | app/src/main/java/com/project/back_end/controllers/DoctorController.java:160-177 | OK or an exception; only a real time can raise; all three `null` list every doctor; results are stored doctors in store order |
| DoctorController.FilterDoctorsSelects | app/src/main/java/com/project/back_end/controllers/DoctorController.java:160-177 | with a filter given, exactly the doctors meeting the chosen criterion (and time half) |
| DoctorController.FilterDoctorsAllNull | app/src/main/java/com/project/back_end/controllers/DoctorController.java:165-173 | `null` in any case lists every doctor, where the service with no filter lists none |
| DoctorController.SaveDoctor | app/src/main/java/com/project/back_end/controllers/DoctorController.java:106-120 | unauthorized without an admin token; else created, conflict or internal error as the service answers 1, -1 or else; only created changes the table, advancing the generated id only for a new row; unique emails kept |
| DoctorController.UpdateDoctor | app/src/main/java/com/project/back_end/controllers/DoctorController.java:127-141 | unauthorized without an admin token; else OK, not found or internal error as the service answers 1, -1 or else |
| DoctorController.DeleteDoctor | app/src/main/java/com/project/back_end/controllers/DoctorController.java:143-158 | unauthorized without an admin token; else OK, not found or internal error; a refusal changes nothing; an internal error keeps the doctor, and keeps the appointments only when their delete failed; no orphaned appointments |
| AppointmentController.GetAppointments | app/src/main/java/com/project/back_end/controllers/AppointmentController.java:76-89 | unauthorized iff the token is not a doctor's; with a doctor's token, an exception iff the service raises and otherwise OK with the service's listing, never its invalid-token entry |
| AppointmentController.GetAppointmentsMember | app/src/main/java/com/project/back_end/controllers/AppointmentController.java:76-89 | a listing holds exactly the token doctor's appointments of the date, narrowed by the name unless it is `null` or blank |
| AppointmentController.BookAppointment | app/src/main/java/com/project/back_end/controllers/AppointmentController.java:91-113 | unauthorized, bad request, internal error or created in that order of checks; created means the doctor had a free slot that date and the appointment was upserted, the generated id advancing only for a new row |
| AppointmentController.UpdateAppointment | app/src/main/java/com/project/back_end/controllers/AppointmentController.java:115-125 | unauthorized without a patient token, else the service's update |
| AppointmentController.CancelAppointment | app/src/main/java/com/project/back_end/controllers/AppointmentController.java:127-137 | unauthorized and nothing changed without a patient token; else an absent id raises and a stored one is removed with OK, whoever owns it |

## Left out

- Token signing, expiry and parsing are a parameter (`TokenService`): `validate`, `extractIdentifier` and `generate` are arbitrary functions.
- Messages and the map keys of the response bodies are not modelled; a reply is a status plus its payload.
- Raised exceptions are one outcome (`Throws`/`Thrown`); the exception class and Spring's translation of it into a 500 response are not modelled.
- The pattern semantics of `findByNameLike` is a parameter (`like`), because the repository's query text is not part of this model.
- `LocalDate.parse` of the path variable is not modelled: endpoints take the parsed date. A date that does not parse raises in the source.
- Sub-second precision of times is not modelled. At second precision the day window `[00:00:00, 23:59:59]` is exactly the date. A booking at `23:59:59.5` would fall outside it in the source.
- `toLowerCase`, `equalsIgnoreCase`, `trim` and `Integer.parseInt` are modelled over ASCII; other Unicode case mappings and non-ASCII decimal digits are not.
- Query results come back in table order; the order a real database returns rows in is not modelled.
- Concurrency, transactions spanning several calls and the database's foreign-key checks are not modelled. The only store failures are the `fault` flags.
- Bean validation (`@NotNull`, `@Future`) is not modelled: a request body is always complete, and a booking is saved whatever patient id it references. An appointment whose patient is not stored reads a null patient, which the name filter dereferences.
- A null id other than 0 is not modelled: `findById(null)` raises in the source, while an id of 0 here is simply not found.
- AppointmentService.UpdateAppointment: the store failing on the final `save` is not modelled, because the source does not catch it.
- Models.Appointment.SetId: the request object is a value in the services; aliasing between a request object and a loaded entity is not modelled.
- `toString` of the entities and the console output are left out.
- The frontend scripts, `PatientController`, `PrescriptionController` and `PatientService` are not part of this model. `filterPatient` ends at the choice of the patient-service query it delegates to.
- Repository interfaces are not part of this model. The finders are modelled from their derived-query names as the services use them.
