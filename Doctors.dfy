/** The doctor's bookings page (route /doctors): lists the logged-in
    doctor's appointments and lets the doctor cancel one. */
module Doctors {
  import opened Records
  import opened Sequences
  import opened Query
  import opened Store

  /** `.eq("doctor_id", doctor).order("date", { ascending: true })`: exactly
      the rows booked to `doctor`, each as often as stored, earliest first. */
  function DoctorBookings(rows: seq<Appointment>, doctor: Id): (r: seq<Appointment>)
    ensures SortedByDate(r)
    ensures forall a :: a in r <==> a in rows && a.doctorId == Some(doctor)
    ensures forall a :: multiset(r)[a] == if a.doctorId == Some(doctor) then multiset(rows)[a] else 0
  {
    assert forall a :: AllHold([DoctorEq(doctor)], a) <==> a.doctorId == Some(doctor);
    SelectByDate(rows, [DoctorEq(doctor)])
  }

  /** `prev.filter(a => a.id !== appointmentId)`: the local list with that
      appointment dropped and the rest kept, in the same order. */
  function WithoutAppointment(list: seq<Appointment>, id: nat): (r: seq<Appointment>)
    ensures forall a :: a in r <==> a in list && a.id != id
    ensures forall a :: multiset(r)[a] == if a.id == id then 0 else multiset(list)[a]
    ensures IsSubsequence(r, list)
  {
    KeepCount(list, (a: Appointment) => a.id != id);
    KeepIsSubsequence(list, (a: Appointment) => a.id != id);
    Keep(list, (a: Appointment) => a.id != id)
  }

  /** Once a cancel by the row's doctor has been written, a fresh read of
      that doctor's bookings no longer holds it, and the row is open again. */
  lemma CancelledRowLeavesDoctorBookings(t: Table, n: nat, id: nat, doctor: Id)
    requires WellKeyed(t)
    requires forall k: int :: k in t <==> 0 <= k < n
    ensures forall a :: a in DoctorBookings(ScanTable(Release(t, id, doctor), n), doctor) ==> a.id != id
    ensures id in t && t[id].doctorId == Some(doctor) ==>
              t[id].(doctorId := None, status := Open) in ScanTable(Release(t, id, doctor), n)
  {
    ReleaseOnlyByOwner(t, id, doctor);
    ScanMembers(Release(t, id, doctor), n);
  }

  class DoctorPage {
    const store: AppointmentTable
    var doctorId: Option<Id>
    var appointments: seq<Appointment>

    ghost predicate Valid()
      reads this, store
    {
      store.Valid()
    }

    /** Mounting the page: without a stored doctor id the page redirects to
        login and fetches nothing. */
    constructor (store: AppointmentTable, storedDoctorId: Option<Id>)
      requires store.Valid()
      ensures Valid() && this.store == store
      ensures doctorId == if Present(storedDoctorId) then storedDoctorId else None
      ensures appointments ==
                if Present(storedDoctorId) then DoctorBookings(store.Scan(), storedDoctorId.value) else []
    {
      this.store := store;
      if Present(storedDoctorId) {
        doctorId := storedDoctorId;
        appointments := DoctorBookings(store.Scan(), storedDoctorId.value);
      } else {
        doctorId := None;
        appointments := [];
      }
    }

    /** `cancelBooking`: reopens the row only if this doctor holds it, then
        drops the id from the local list whether or not a row matched. */
    method CancelBooking(appointmentId: nat)
      requires Valid()
      modifies `appointments, store`rows
      ensures Valid()
      ensures !Present(doctorId) ==> store.rows == old(store.rows) && appointments == old(appointments)
      ensures Present(doctorId) ==>
                store.rows == Release(old(store.rows), appointmentId, doctorId.value) &&
                appointments == WithoutAppointment(old(appointments), appointmentId)
    {
      if !Present(doctorId) {
        return;
      }
      store.Update([IdEq(appointmentId), DoctorEq(doctorId.value)], Patch(None, Open));
      appointments := WithoutAppointment(appointments, appointmentId);
    }
  }
}
