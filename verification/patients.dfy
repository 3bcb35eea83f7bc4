/** Patient records held in the `patients` collection, and the two read-only
    queries the booking logic runs against it: `patient_exists` (a lookup by the
    exact (name, contact) pair) and `count_appointments` (how many records are
    booked on a date). The collection is an ordered sequence of records. */
module Patients {

  datatype Option<T> = None | Some(value: T)

  /** A calendar date, as a day number. The store keeps the ISO text of a
      date, which is injective and ordered like the day number. */
  type Date = int

  /** Largest number of records that may be booked on one date. */
  const Capacity: nat := 20

  /** One document of the collection. `appointment == None` is the stored `None`. */
  datatype Patient = Patient(
    name: string,
    age: int,
    gender: string,
    contact: string,
    medicalHistory: string,
    appointment: Option<Date>)

  /** The filter `{'name': name, 'contact': contact}`: exact, no normalisation. */
  predicate Matches(p: Patient, name: string, contact: string)
  {
    p.name == name && p.contact == contact
  }

  /** Position of the first record at or after `from` matching (name, contact). */
  function FindFrom(store: seq<Patient>, name: string, contact: string, from: nat): (r: Option<nat>)
    requires from <= |store|
    ensures r.Some? ==> from <= r.value < |store| && Matches(store[r.value], name, contact)
    ensures r.Some? ==> forall j :: from <= j < r.value ==> !Matches(store[j], name, contact)
    ensures r.None? ==> forall j :: from <= j < |store| ==> !Matches(store[j], name, contact)
    decreases |store| - from
  {
    if from == |store| then None
    else if Matches(store[from], name, contact) then Some(from)
    else FindFrom(store, name, contact, from + 1)
  }

  /** Position of the first record matching (name, contact): the record that
      `find_one` returns and that `update_one` changes. */
  function FindIndex(store: seq<Patient>, name: string, contact: string): (r: Option<nat>)
    ensures r.Some? ==> r.value < |store| && Matches(store[r.value], name, contact)
    ensures r.Some? ==> forall j :: 0 <= j < r.value ==> !Matches(store[j], name, contact)
    ensures r.None? <==> forall j :: 0 <= j < |store| ==> !Matches(store[j], name, contact)
  {
    FindFrom(store, name, contact, 0)
  }

  /** `patient_exists`: the matching record, or `None` when there is none. */
  function PatientExists(store: seq<Patient>, name: string, contact: string): (r: Option<Patient>)
    ensures r.Some? <==> exists i :: 0 <= i < |store| && Matches(store[i], name, contact)
    ensures r.Some? ==> r.value in store && Matches(r.value, name, contact)
  {
    match FindIndex(store, name, contact)
    case None => None
    case Some(i) => Some(store[i])
  }

  /** The appointment field of every record, in store order. */
  function Bookings(store: seq<Patient>): seq<Option<Date>>
  {
    seq(|store|, i requires 0 <= i < |store| => store[i].appointment)
  }

  /** `count_appointments`: the number of records whose appointment is `d`. */
  function CountAppointments(store: seq<Patient>, d: Date): (n: nat)
    ensures n == multiset(Bookings(store))[Some(d)]
    ensures n <= |store|
  {
    if store == [] then 0
    else
      assert Bookings(store) == [store[0].appointment] + Bookings(store[1..]);
      (if store[0].appointment == Some(d) then 1 else 0) + CountAppointments(store[1..], d)
  }

  /** Identity invariant: no two records share a (name, contact) pair. */
  predicate UniqueIdentities(store: seq<Patient>)
  {
    forall i, j :: 0 <= i < j < |store| ==>
      !Matches(store[j], store[i].name, store[i].contact)
  }

  /** Capacity invariant: no date holds more than `Capacity` bookings. */
  ghost predicate WithinCapacity(store: seq<Patient>)
  {
    forall d :: CountAppointments(store, d) <= Capacity
  }

  /** Under the identity invariant a match is unambiguous: the record found
      by `find_one` and changed by `update_one` is the only one matching. */
  lemma UniqueMatch(store: seq<Patient>, i: nat, name: string, contact: string)
    requires UniqueIdentities(store)
    requires i < |store| && Matches(store[i], name, contact)
    ensures FindIndex(store, name, contact) == Some(i)
    ensures forall j :: 0 <= j < |store| && j != i ==> !Matches(store[j], name, contact)
  {
  }

  /** Inserting a record raises the count of its own date by one and leaves
      every other date's count alone. */
  lemma {:induction false} CountAfterInsert(store: seq<Patient>, p: Patient, d: Date)
    ensures CountAppointments(store + [p], d)
         == CountAppointments(store, d) + (if p.appointment == Some(d) then 1 else 0)
  {
    assert Bookings(store + [p]) == Bookings(store) + [p.appointment];
  }

  /** Setting record `k`'s appointment to `to` releases one booking of its old
      date and takes one booking of `to`; every other count is unchanged. */
  lemma {:induction false} CountAfterSet(store: seq<Patient>, k: nat, to: Date, d: Date)
    requires k < |store|
    ensures CountAppointments(store[k := store[k].(appointment := Some(to))], d)
         == CountAppointments(store, d)
          - (if store[k].appointment == Some(d) then 1 else 0)
          + (if to == d then 1 else 0)
  {
    var after := store[k := store[k].(appointment := Some(to))];
    assert Bookings(after) == Bookings(store)[k := Some(to)];
    assert Bookings(store)[k] == store[k].appointment;
  }
}
