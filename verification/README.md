# Clinic patient registry and appointment booking

A Dafny model of the booking logic of a small clinic application
(`healthcare_proj.py`). The application keeps one collection of patient
records. Each record holds a name, an age, a gender, a contact number, a
medical history and an optional appointment date. The logic has two read-only
queries and two operations that change the collection:

- `patient_exists` looks a record up by the exact (name, contact) pair;
- `count_appointments` counts the records booked on a date;
- `add_patient` checks, in this order, that the name is non-empty, that the
  contact is ten digits and that the (name, contact) pair is new, and only then
  inserts a record without an appointment;
- `schedule_appointment` checks, in this order, that the patient exists, that
  the date is not before today and that the date holds fewer than 20 bookings,
  and only then sets that patient's appointment.

The model is in three modules:

- `Patients` (`patients.dfy`): the record, the two queries over a sequence of
  records, the two invariants (no two records share a (name, contact) pair; no
  date holds more than 20 bookings), and how a count changes when a record is
  inserted or re-booked.
- `Booking` (`booking.dfy`): each changing operation as a pure transition from
  a store to an outcome code and the next store; proofs that each transition
  keeps both invariants, and therefore that any sequence of calls does
  (`RunKeepsInvariants`); the re-booking properties.
- `Clinic` (`clinic.dfy`): the collection as a class whose `records` field the
  two methods update in place, each proved to make exactly the transition
  `Booking` defines and to keep `Valid()`.

Modelling choices:

- Dates are day numbers (`int`). The store keeps `str(date)`, the ISO text,
  which is injective, so comparing stored texts is comparing dates.
- "Today" (`datetime.now().date()`) is a parameter of `ScheduleAppointment`.
- The database calls become operations on a sequence: `find_one` and
  `update_one` act on the first matching record; under the identity invariant
  that is the only match (`UniqueMatch`). `insert_one` appends.
- The error, warning and success messages become outcome codes
  (`AddOutcome`, `ScheduleOutcome`).
- Re-booking a patient on the date they already hold counts their own booking:
  below 20 it succeeds and changes nothing, at exactly 20 it is refused as
  fully booked (`RebookSameDate`). So booking the same date again is not
  idempotent: at exactly 20 bookings it is refused even though it would change
  nothing.

## Model

| member | source | states |
|---|---|---|
| `Patients.FindFrom` | healthcare_proj.py:44-45 | the result, if any, is the first position at or after the start whose record matches (name, contact) exactly; `None` means no record from there on matches |
| `Patients.FindIndex` | healthcare_proj.py:44-45 | the first matching position; `None` exactly when no record matches |
| `Patients.PatientExists` | healthcare_proj.py:44-45 | a record is returned exactly when some record has that exact (name, contact), and the returned record is one of the store's and matches |
| `Patients.CountAppointments` | healthcare_proj.py:47-49 | the count equals the multiplicity of the date among the records' appointment fields, and is at most the number of records |
| `Patients.UniqueMatch` | healthcare_proj.py:102-105 | when no two records share a (name, contact) pair, the record the lookup finds is the only record with that pair, so "first match" and "the match" agree |
| `Patients.CountAfterInsert` | healthcare_proj.py:62-70 | inserting a record raises its own date's count by one and leaves every other count unchanged; a record with no appointment changes no count |
| `Patients.CountAfterSet` | healthcare_proj.py:102-105 | setting one record's appointment lowers the count of its former date by one, raises the count of the new date by one, and leaves all other counts unchanged |
| `Booking.AddPatient` | healthcare_proj.py:52-71 | an empty name is refused first; otherwise a contact that is not exactly ten digits is refused; otherwise an existing (name, contact) pair is refused; every refusal leaves the store unchanged; a success appends exactly one record with the given fields and no appointment and keeps all existing records |
| `Booking.SetAppointment` | healthcare_proj.py:102-105 | the first matching record gets the date as its appointment with all its other fields unchanged, every other record is unchanged, and with no match nothing changes |
| `Booking.ScheduleAppointment` | healthcare_proj.py:92-108 | an unknown (name, contact) is refused first; otherwise a date before today is refused; otherwise a date with 20 or more bookings is refused; every refusal leaves the store unchanged; a success sets only the matching record's appointment |
| `Booking.AddPatientKeepsInvariants` | healthcare_proj.py:59-70 | if no two records share a (name, contact) pair and no date exceeds 20 bookings before `add_patient`, both still hold after it |
| `Booking.ScheduleKeepsInvariants` | healthcare_proj.py:98-105 | if no two records share a (name, contact) pair and no date exceeds 20 bookings before `schedule_appointment`, both still hold after it |
| `Booking.RebookMovesOneSlot` | healthcare_proj.py:98-105 | moving a booked patient to a different date that is not in the past and has fewer than 20 bookings succeeds, lowers the old date's count by one and raises the new date's count by one |
| `Booking.RebookSameDate` | healthcare_proj.py:98-105 | re-booking a patient on the date they already hold succeeds and leaves the store unchanged when that date has fewer than 20 bookings, and is refused as fully booked with the store unchanged when it has exactly 20 |
| `Booking.Apply` | healthcare_proj.py:52-108 | one call never removes or moves records: every existing record keeps its position and all its fields except possibly the appointment; an addition adds at most one record at the end, a booking keeps the number of records |
| `Booking.Run` | healthcare_proj.py:52-108 | a sequence of calls never shrinks the collection, and every record present at the start keeps its position and all its fields except possibly the appointment |
| `Booking.RunKeepsInvariants` | healthcare_proj.py:52-108 | for any sequence of `add_patient` and `schedule_appointment` calls, starting from a store where both invariants hold, no two records share a (name, contact) pair and no date holds more than 20 bookings at the end |
| `Clinic.PatientsCollection.constructor` | healthcare_proj.py:9-11 | the opened collection holds the records already stored, which must satisfy both invariants |
| `Clinic.PatientsCollection.AddPatient` | healthcare_proj.py:52-71 | the in-place insertion makes exactly the `Booking.AddPatient` transition: the same outcome, the old records plus the new record on success, the old records otherwise; both invariants are kept |
| `Clinic.PatientsCollection.ScheduleAppointment` | healthcare_proj.py:92-108 | the in-place update makes exactly the `Booking.ScheduleAppointment` transition: on success one matching record's appointment is set to the date and nothing else changes, on refusal nothing changes; both invariants are kept |

## Left out

- The Streamlit user interface: page configuration, styling, the page
  functions, navigation state and the messages shown; messages are outcome
  codes here.
- `view_patients`, which only displays the records.
- The MongoDB connection and driver; the collection is an in-memory sequence,
  and the store-assigned `_id` is not modelled because no logic reads it.
- Concurrency: the count at line 98 and the write at line 102 are separate
  database calls with no lock or transaction, so concurrent bookings could
  exceed the capacity. The model is sequential, and its capacity invariant
  holds only for calls that run one after another.
- The wall clock: "today" is a parameter.
- Booking.IsDigits: accepts only the ASCII digits `0`-`9`, while Python's
  `str.isdigit()` also accepts other Unicode digits.
- Age and gender constraints: `add_patient` enforces none; the minimum age and
  the fixed gender choices exist only in the input widgets.
