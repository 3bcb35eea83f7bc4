/** The two operations that change the collection, `add_patient` and
    `schedule_appointment`, as transitions from a store to an outcome and the
    next store. The messages shown to the user become outcome codes. Each
    transition keeps the identity and capacity invariants, so any sequence of
    calls does. */
module Booking {
  import opened Patients

  datatype AddOutcome = Added | InvalidName | InvalidContact | DuplicatePatient

  datatype ScheduleOutcome = Scheduled | PatientNotFound | DateInPast | DateFullyBooked

  datatype Transition<O> = Transition(outcome: O, after: seq<Patient>)

  /** `contact.isdigit()`, restricted to the ASCII digits; like Python's, it
      is false on the empty text. */
  predicate IsDigits(s: string)
  {
    |s| > 0 && forall i :: 0 <= i < |s| ==> '0' <= s[i] <= '9'
  }

  /** The contact check: exactly ten characters, all of them digits. */
  predicate ValidContact(contact: string)
  {
    |contact| == 10 && IsDigits(contact)
  }

  /** The record `add_patient` inserts: the given fields, no appointment. */
  function NewPatient(name: string, age: int, gender: string, contact: string, history: string): Patient
  {
    Patient(name, age, gender, contact, history, None)
  }

  /** `add_patient`: the checks run in a fixed order (name, then contact, then
      duplicate) and the first that fails decides the outcome; only when all
      pass is one record appended. */
  function AddPatient(store: seq<Patient>, name: string, age: int, gender: string,
                      contact: string, history: string): (r: Transition<AddOutcome>)
    ensures r.outcome == InvalidName <==> name == []
    ensures r.outcome == InvalidContact <==> name != [] && !ValidContact(contact)
    ensures r.outcome == DuplicatePatient <==>
      name != [] && ValidContact(contact) &&
      exists i :: 0 <= i < |store| && Matches(store[i], name, contact)
    ensures r.outcome != Added ==> r.after == store
    ensures r.outcome == Added ==>
      |r.after| == |store| + 1 && r.after[..|store|] == store &&
      r.after[|store|] == Patient(name, age, gender, contact, history, None)
  {
    if name == [] then Transition(InvalidName, store)
    else if |contact| != 10 || !IsDigits(contact) then Transition(InvalidContact, store)
    else if PatientExists(store, name, contact).Some? then Transition(DuplicatePatient, store)
    else Transition(Added, store + [NewPatient(name, age, gender, contact, history)])
  }

  /** `update_one` with `$set`: the first record matching (name, contact) gets
      `date` as its appointment; with no match the store is unchanged. */
  function SetAppointment(store: seq<Patient>, name: string, contact: string, date: Date): (after: seq<Patient>)
    ensures |after| == |store|
    ensures FindIndex(store, name, contact).None? ==> after == store
    ensures FindIndex(store, name, contact).Some? ==>
      var k := FindIndex(store, name, contact).value;
      after[k] == store[k].(appointment := Some(date)) &&
      forall j :: 0 <= j < |store| && j != k ==> after[j] == store[j]
  {
    match FindIndex(store, name, contact)
    case None => store
    case Some(k) => store[k := store[k].(appointment := Some(date))]
  }

  /** `schedule_appointment`: the patient must exist, then the date must not
      be before `today`, then the date must hold fewer than `Capacity`
      bookings; only then is the matching record's appointment set. */
  function ScheduleAppointment(store: seq<Patient>, name: string, contact: string,
                               date: Date, today: Date): (r: Transition<ScheduleOutcome>)
    ensures r.outcome == PatientNotFound <==>
      forall i :: 0 <= i < |store| ==> !Matches(store[i], name, contact)
    ensures r.outcome == DateInPast <==>
      (exists i :: 0 <= i < |store| && Matches(store[i], name, contact)) && date < today
    ensures r.outcome == DateFullyBooked <==>
      (exists i :: 0 <= i < |store| && Matches(store[i], name, contact)) && today <= date &&
      CountAppointments(store, date) >= Capacity
    ensures r.outcome != Scheduled ==> r.after == store
    ensures r.outcome == Scheduled ==>
      FindIndex(store, name, contact).Some? &&
      var k := FindIndex(store, name, contact).value;
      |r.after| == |store| &&
      r.after[k] == store[k].(appointment := Some(date)) &&
      forall j :: 0 <= j < |store| && j != k ==> r.after[j] == store[j]
  {
    if PatientExists(store, name, contact).Some? then
      if date < today then Transition(DateInPast, store)
      else if CountAppointments(store, date) >= Capacity then Transition(DateFullyBooked, store)
      else Transition(Scheduled, SetAppointment(store, name, contact, date))
    else Transition(PatientNotFound, store)
  }

  /** `add_patient` keeps both invariants: a duplicate pair is never inserted,
      and the new record carries no booking. */
  lemma AddPatientKeepsInvariants(store: seq<Patient>, name: string, age: int, gender: string,
                                  contact: string, history: string)
    requires UniqueIdentities(store) && WithinCapacity(store)
    ensures UniqueIdentities(AddPatient(store, name, age, gender, contact, history).after)
    ensures WithinCapacity(AddPatient(store, name, age, gender, contact, history).after)
  {
    var r := AddPatient(store, name, age, gender, contact, history);
    if r.outcome == Added {
      var p := NewPatient(name, age, gender, contact, history);
      assert r.after == store + [p];
      forall d ensures CountAppointments(r.after, d) <= Capacity {
        CountAfterInsert(store, p, d);
      }
    }
  }

  /** `schedule_appointment` keeps both invariants: identities are never
      changed, and a date receives a booking only while below capacity. */
  lemma ScheduleKeepsInvariants(store: seq<Patient>, name: string, contact: string,
                                date: Date, today: Date)
    requires UniqueIdentities(store) && WithinCapacity(store)
    ensures UniqueIdentities(ScheduleAppointment(store, name, contact, date, today).after)
    ensures WithinCapacity(ScheduleAppointment(store, name, contact, date, today).after)
  {
    var r := ScheduleAppointment(store, name, contact, date, today);
    if r.outcome == Scheduled {
      var k := FindIndex(store, name, contact).value;
      assert r.after == store[k := store[k].(appointment := Some(date))];
      forall d ensures CountAppointments(r.after, d) <= Capacity {
        CountAfterSet(store, k, date, d);
      }
    }
  }

  /** Moving a booked patient to a different, not yet full, date succeeds,
      frees one slot of the old date and takes one slot of the new one. */
  lemma RebookMovesOneSlot(store: seq<Patient>, i: nat, date: Date, today: Date)
    requires UniqueIdentities(store)
    requires i < |store| && store[i].appointment.Some? && store[i].appointment.value != date
    requires today <= date && CountAppointments(store, date) < Capacity
    ensures ScheduleAppointment(store, store[i].name, store[i].contact, date, today).outcome == Scheduled
    ensures CountAppointments(ScheduleAppointment(store, store[i].name, store[i].contact, date, today).after,
                              store[i].appointment.value)
         == CountAppointments(store, store[i].appointment.value) - 1
    ensures CountAppointments(ScheduleAppointment(store, store[i].name, store[i].contact, date, today).after, date)
         == CountAppointments(store, date) + 1
  {
    UniqueMatch(store, i, store[i].name, store[i].contact);
    var r := ScheduleAppointment(store, store[i].name, store[i].contact, date, today);
    assert r.after == store[i := store[i].(appointment := Some(date))];
    CountAfterSet(store, i, date, store[i].appointment.value);
    CountAfterSet(store, i, date, date);
  }

  /** Booking a patient again on the date they already hold: below capacity
      it succeeds and changes nothing; the patient's own booking is counted, so
      at exactly `Capacity` bookings it is refused as fully booked. */
  lemma RebookSameDate(store: seq<Patient>, i: nat, date: Date, today: Date)
    requires UniqueIdentities(store)
    requires i < |store| && store[i].appointment == Some(date) && today <= date
    ensures CountAppointments(store, date) < Capacity ==>
      ScheduleAppointment(store, store[i].name, store[i].contact, date, today) == Transition(Scheduled, store)
    ensures CountAppointments(store, date) == Capacity ==>
      ScheduleAppointment(store, store[i].name, store[i].contact, date, today) == Transition(DateFullyBooked, store)
  {
  }

  /** A call from the user interface, with the caller's date for "today". */
  datatype Request =
    | AddRequest(name: string, age: int, gender: string, contact: string, history: string)
    | ScheduleRequest(name: string, contact: string, date: Date, today: Date)

  /** The store after one request. */
  function Apply(store: seq<Patient>, req: Request): (after: seq<Patient>)
    ensures req.AddRequest? ==> |store| <= |after| <= |store| + 1 && after[..|store|] == store
    ensures req.ScheduleRequest? ==> |after| == |store|
    ensures forall i :: 0 <= i < |store| ==>
      i < |after| && after[i] == store[i].(appointment := after[i].appointment)
  {
    match req
    case AddRequest(name, age, gender, contact, history) =>
      AddPatient(store, name, age, gender, contact, history).after
    case ScheduleRequest(name, contact, date, today) =>
      ScheduleAppointment(store, name, contact, date, today).after
  }

  /** The store after handling `reqs` one after another. */
  function Run(store: seq<Patient>, reqs: seq<Request>): (after: seq<Patient>)
    ensures |store| <= |after|
    ensures forall i :: 0 <= i < |store| ==>
      after[i] == store[i].(appointment := after[i].appointment)
    decreases |reqs|
  {
    if reqs == [] then store else Run(Apply(store, reqs[0]), reqs[1..])
  }

  /** Under sequential calls no two records ever share a (name, contact)
      pair and no date ever holds more than `Capacity` bookings. */
  lemma {:induction false} RunKeepsInvariants(store: seq<Patient>, reqs: seq<Request>)
    requires UniqueIdentities(store) && WithinCapacity(store)
    ensures UniqueIdentities(Run(store, reqs)) && WithinCapacity(Run(store, reqs))
    decreases |reqs|
  {
    if reqs != [] {
      match reqs[0] {
        case AddRequest(name, age, gender, contact, history) =>
          AddPatientKeepsInvariants(store, name, age, gender, contact, history);
        case ScheduleRequest(name, contact, date, today) =>
          ScheduleKeepsInvariants(store, name, contact, date, today);
      }
      RunKeepsInvariants(Apply(store, reqs[0]), reqs[1..]);
    }
  }
}
