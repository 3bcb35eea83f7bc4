/** The `patients` collection as a mutable object. Its two methods run the
    checks of `add_patient` and `schedule_appointment` in their fixed order
    against the current records and then insert or update in place; each is
    proved to make exactly the transition `Booking` defines, and so to keep
    the identity and capacity invariants. */
module Clinic {
  import opened Patients
  import opened Booking

  class PatientsCollection {
    var records: seq<Patient>

    /** Both invariants of the collection. */
    ghost predicate Valid()
      reads this
    {
      UniqueIdentities(records) && WithinCapacity(records)
    }

    /** The collection as opened, holding the records already stored. */
    constructor (init: seq<Patient>)
      requires UniqueIdentities(init) && WithinCapacity(init)
      ensures Valid() && records == init
    {
      records := init;
    }

    /** `add_patient`: reject an empty name, then a contact that is not ten
        digits, then an existing (name, contact) pair; otherwise insert a
        record with no appointment. */
    method AddPatient(name: string, age: int, gender: string, contact: string, history: string)
      returns (outcome: AddOutcome)
      requires Valid()
      modifies this
      ensures Valid()
      ensures outcome == Booking.AddPatient(old(records), name, age, gender, contact, history).outcome
      ensures records == Booking.AddPatient(old(records), name, age, gender, contact, history).after
      ensures outcome == Added ==> records == old(records) + [NewPatient(name, age, gender, contact, history)]
      ensures outcome != Added ==> records == old(records)
    {
      AddPatientKeepsInvariants(records, name, age, gender, contact, history);
      if name == [] {
        return InvalidName;
      }
      if |contact| != 10 || !IsDigits(contact) {
        return InvalidContact;
      }
      if PatientExists(records, name, contact).Some? {
        outcome := DuplicatePatient;
      } else {
        records := records + [NewPatient(name, age, gender, contact, history)];
        outcome := Added;
      }
    }

    /** `schedule_appointment`, with the caller's date as `today`: reject an
        unknown patient, then a past date, then a date already holding
        `Capacity` bookings; otherwise set the matching record's appointment. */
    method ScheduleAppointment(name: string, contact: string, date: Date, today: Date)
      returns (outcome: ScheduleOutcome)
      requires Valid()
      modifies this
      ensures Valid()
      ensures outcome == Booking.ScheduleAppointment(old(records), name, contact, date, today).outcome
      ensures records == Booking.ScheduleAppointment(old(records), name, contact, date, today).after
      ensures outcome != Scheduled ==> records == old(records)
      ensures outcome == Scheduled ==>
        exists k :: 0 <= k < |old(records)| && Matches(old(records)[k], name, contact) &&
          records == old(records)[k := old(records)[k].(appointment := Some(date))]
    {
      ScheduleKeepsInvariants(records, name, contact, date, today);
      if PatientExists(records, name, contact).Some? {
        if date < today {
          return DateInPast;
        }
        if CountAppointments(records, date) >= Capacity {
          return DateFullyBooked;
        }
        var k := FindIndex(records, name, contact).value;
        records := records[k := records[k].(appointment := Some(date))];
        outcome := Scheduled;
      } else {
        outcome := PatientNotFound;
      }
    }
  }
}
