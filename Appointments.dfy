/** The doctor's open-slot page (route /appointments): lists every open
    slot and lets the logged-in doctor pick one. */
module Appointments {
  import opened Records
  import opened Query
  import opened Store

  /** `.eq("status", "open").order("date", { ascending: true })`: exactly
      the open rows, each as often as stored, earliest first. */
  function OpenSlots(rows: seq<Appointment>): (r: seq<Appointment>)
    ensures SortedByDate(r)
    ensures forall a :: a in r <==> a in rows && a.status == Open
    ensures forall a :: multiset(r)[a] == if a.status == Open then multiset(rows)[a] else 0
  {
    assert forall a :: AllHold([StatusEq(Open)], a) <==> a.status == Open;
    SelectByDate(rows, [StatusEq(Open)])
  }

  /** Once a pick has been written, the refreshed list no longer offers
      that slot, and every other open slot is still offered. */
  lemma PickedSlotLeavesOpenSlots(t: Table, n: nat, id: nat, doctor: Id)
    requires WellKeyed(t)
    requires forall k: int :: k in t <==> 0 <= k < n
    ensures forall a :: a in OpenSlots(ScanTable(Book(t, id, doctor), n)) ==> a.id != id
    ensures forall k :: k in t && k != id && t[k].status == Open ==>
              t[k] in OpenSlots(ScanTable(Book(t, id, doctor), n))
  {
    BookChangesOnlyThatRow(t, id, doctor);
    var after := Book(t, id, doctor);
    ScanMembers(after, n);
  }

  class AppointmentsPage {
    const store: AppointmentTable
    var doctorId: Option<Id>
    var appointments: seq<Appointment>

    ghost predicate Valid()
      reads this, store
    {
      store.Valid()
    }

    /** Mounting the page: the doctor id kept from login; without one
        nothing is fetched. */
    constructor (store: AppointmentTable, storedDoctorId: Option<Id>)
      requires store.Valid()
      ensures Valid() && this.store == store
      ensures doctorId == if Present(storedDoctorId) then storedDoctorId else None
      ensures appointments == if Present(storedDoctorId) then OpenSlots(store.Scan()) else []
    {
      this.store := store;
      if Present(storedDoctorId) {
        doctorId := storedDoctorId;
        appointments := OpenSlots(store.Scan());
      } else {
        doctorId := None;
        appointments := [];
      }
    }

    /** `pickAppointment`: books the slot for the logged-in doctor, whatever
        its status, then refreshes the open-slot list. */
    method PickAppointment(appointmentId: nat)
      requires Valid()
      modifies `appointments, store`rows
      ensures Valid()
      ensures !Present(doctorId) ==> store.rows == old(store.rows) && appointments == old(appointments)
      ensures Present(doctorId) ==>
                store.rows == Book(old(store.rows), appointmentId, doctorId.value) &&
                appointments == OpenSlots(store.Scan())
      ensures Present(doctorId) ==> forall a :: a in appointments ==> a.id != appointmentId
    {
      if !Present(doctorId) {
        return;
      }
      store.Update([IdEq(appointmentId)], Patch(Some(doctorId.value), Booked));
      appointments := OpenSlots(store.Scan());
      PickedSlotLeavesOpenSlots(old(store.rows), store.nextId, appointmentId, doctorId.value);
    }
  }
}
