/** The clinic dashboard (route /clinic-dashboard): the clinic's own
    appointments, its patients, the doctors split into in-network and
    out-of-network, and the forms that add a patient, create an open slot
    and assign a doctor to a slot. */
module ClinicDashboard {
  import opened Records
  import opened Sequences
  import opened Query
  import opened Store

  /** `.eq("clinic_id", clinic).order("date", { ascending: true })`: exactly
      the clinic's rows, each as often as stored, earliest first. */
  function ClinicAppointments(rows: seq<Appointment>, clinic: Id): (r: seq<Appointment>)
    ensures SortedByDate(r)
    ensures forall a :: a in r <==> a in rows && a.clinicId == clinic
    ensures forall a :: multiset(r)[a] == if a.clinicId == clinic then multiset(rows)[a] else 0
  {
    assert forall a :: AllHold([ClinicEq(clinic)], a) <==> a.clinicId == clinic;
    SelectByDate(rows, [ClinicEq(clinic)])
  }

  /** `.eq("clinic_id", clinic).not("doctor_id", "is", null)`: the clinic's
      rows that name a doctor, in scan order. */
  function ClinicRowsWithDoctor(rows: seq<Appointment>, clinic: Id): (r: seq<Appointment>)
    ensures forall a :: a in r <==> a in rows && a.clinicId == clinic && a.doctorId.Some?
  {
    var fs := [ClinicEq(clinic), DoctorNotNull];
    assert fs[1..] == [DoctorNotNull] && fs[1..][1..] == [];
    assert forall a :: AllHold(fs, a) <==> a.clinicId == clinic && a.doctorId.Some? by {
      forall a ensures AllHold(fs, a) <==> a.clinicId == clinic && a.doctorId.Some? {
        assert AllHold(fs[1..], a) <==> a.doctorId.Some?;
      }
    }
    Where(rows, fs)
  }

  /** `apptData.map(a => a.doctor_id)` over rows that all name a doctor. */
  function DoctorIdsOf(rows: seq<Appointment>): (ids: seq<Id>)
    requires forall a :: a in rows ==> a.doctorId.Some?
    ensures forall d :: d in ids <==> Some(d) in DoctorColumn(rows)
  {
    if |rows| == 0 then []
    else [rows[0].doctorId.value] + DoctorIdsOf(rows[1..])
  }

  /** The `doctor_id` column of `rows`. */
  ghost function DoctorColumn(rows: seq<Appointment>): set<Option<Id>>
  {
    set a | a in rows :: a.doctorId
  }

  /** `Array.from(new Set(apptData.map(a => a.doctor_id)))`: each doctor
      named by one of the clinic's rows, once, whatever the row's status. */
  function NetworkIds(rows: seq<Appointment>, clinic: Id): (ids: seq<Id>)
    ensures NoDuplicates(ids)
    ensures forall d :: d in ids <==> exists a :: a in rows && a.clinicId == clinic && a.doctorId == Some(d)
  {
    var named := ClinicRowsWithDoctor(rows, clinic);
    var ids := DoctorIdsOf(named);
    assert forall d :: Some(d) in DoctorColumn(named) <==>
             exists a :: a in rows && a.clinicId == clinic && a.doctorId == Some(d);
    Unique(ids)
  }

  /** `allDoctors.filter(d => inNetworkIds.includes(d.id))`. */
  function InNetwork(all: seq<Doctor>, ids: seq<Id>): (r: seq<Doctor>)
    ensures forall d :: d in r <==> d in all && d.id in ids
  {
    Keep(all, (d: Doctor) => d.id in ids)
  }

  /** `allDoctors.filter(d => !inNetworkIds.includes(d.id))`. */
  function OutNetwork(all: seq<Doctor>, ids: seq<Id>): (r: seq<Doctor>)
    ensures forall d :: d in r <==> d in all && d.id !in ids
  {
    Keep(all, (d: Doctor) => d.id !in ids)
  }

  /** The two lists split the directory: no doctor is in both, together
      they hold every doctor as often as the directory does, and each keeps
      the directory's order. */
  lemma NetworkPartition(all: seq<Doctor>, ids: seq<Id>)
    ensures forall d :: !(d in InNetwork(all, ids) && d in OutNetwork(all, ids))
    ensures forall d :: d in all <==> d in InNetwork(all, ids) || d in OutNetwork(all, ids)
    ensures multiset(InNetwork(all, ids)) + multiset(OutNetwork(all, ids)) == multiset(all)
    ensures |InNetwork(all, ids)| + |OutNetwork(all, ids)| == |all|
    ensures IsSubsequence(InNetwork(all, ids), all)
    ensures IsSubsequence(OutNetwork(all, ids), all)
  {
    KeepSplits(all, (d: Doctor) => d.id in ids, (d: Doctor) => d.id !in ids);
    KeepIsSubsequence(all, (d: Doctor) => d.id in ids);
    KeepIsSubsequence(all, (d: Doctor) => d.id !in ids);
  }

  /** Where every row keeps the booking invariant, "named by a row of the
      clinic" is the same as "holds a booked slot of the clinic". */
  lemma NetworkIdsAreBookedDoctors(rows: seq<Appointment>, clinic: Id)
    requires forall a :: a in rows ==> BookedIffDoctor(a)
    ensures forall d :: d in NetworkIds(rows, clinic) <==>
              exists a :: a in rows && a.clinicId == clinic && a.status == Booked && a.doctorId == Some(d)
  {
  }

  /** After a doctor is assigned to one of the clinic's slots, a fresh read
      counts that doctor as in-network. */
  lemma AssignedDoctorIsInNetwork(t: Table, n: nat, id: nat, clinic: Id, doctor: Id, directory: seq<Doctor>)
    requires WellKeyed(t)
    requires forall k: int :: k in t <==> 0 <= k < n
    requires id in t && t[id].clinicId == clinic
    ensures doctor in NetworkIds(ScanTable(Book(t, id, doctor), n), clinic)
    ensures forall d :: d in directory && d.id == doctor ==>
              d in InNetwork(directory, NetworkIds(ScanTable(Book(t, id, doctor), n), clinic))
  {
    BookChangesOnlyThatRow(t, id, doctor);
    var rows := ScanTable(Book(t, id, doctor), n);
    assert rows[id] in rows && rows[id].clinicId == clinic && rows[id].doctorId == Some(doctor);
  }

  /** `toggleAssignDoctor`: the assign panel opens for the given slot, or
      closes when it is already open for that slot. */
  function Toggle(current: Option<nat>, id: nat): (r: Option<nat>)
    ensures r == None <==> current == Some(id)
    ensures r != None ==> r == Some(id)
  {
    if current == Some(id) then None else Some(id)
  }

  /** Toggling the same slot twice returns to the start when the panel was
      closed or open for that slot, and closes it when it was open for
      another slot. */
  lemma ToggleTwice(current: Option<nat>, id: nat)
    ensures current == None ==> Toggle(Toggle(current, id), id) == None
    ensures current == Some(id) ==> Toggle(Toggle(current, id), id) == current
    ensures current != None && current != Some(id) ==> Toggle(Toggle(current, id), id) == None
  {
  }

  /** The row `createAppointment` inserts, or None when the patient, the date
      or the clinic is missing. The key is left to the store. */
  function NewAppointment(selectedPatient: Id, newDate: Option<int>, clinicId: Option<Id>, newNotes: string)
    : (r: Option<Appointment>)
    ensures r.None? <==> |selectedPatient| == 0 || newDate.None? || !Present(clinicId)
    ensures r.Some? ==> r.value.status == Open && r.value.doctorId == None && BookedIffDoctor(r.value)
    ensures r.Some? ==> r.value.clinicId == clinicId.value && r.value.patientId == selectedPatient
    ensures r.Some? ==> r.value.date == newDate.value
    ensures r.Some? ==> (r.value.notes == None <==> |newNotes| == 0)
    ensures r.Some? && |newNotes| > 0 ==> r.value.notes == Some(newNotes)
  {
    if |selectedPatient| == 0 || newDate.None? || !Present(clinicId) then None
    else Some(Appointment(
      id := 0,
      date := newDate.value,
      status := Open,
      notes := if |newNotes| == 0 then None else Some(newNotes),
      patientId := selectedPatient,
      doctorId := None,
      clinicId := clinicId.value))
  }

  /** Inserting an open row without a doctor keeps "booked exactly when a
      doctor is set". */
  lemma NewAppointmentKeepsBookingInvariant(t: Table, id: nat, row: Appointment)
    requires BookingInvariant(t)
    requires row.status == Open && row.doctorId == None
    ensures BookingInvariant(t[id := row.(id := id)])
  {
  }

  class Dashboard {
    const store: AppointmentTable
    /** The `doctors` table, which the dashboard only reads. */
    const doctors: seq<Doctor>
    var clinicId: Option<Id>
    var appointments: seq<Appointment>
    var patients: seq<Patient>
    var inNetworkDoctors: seq<Doctor>
    var outNetworkDoctors: seq<Doctor>
    var newPatientName: string
    var selectedPatient: Id
    var newDate: Option<int>
    var newNotes: string
    var assigningDoctorFor: Option<nat>

    ghost predicate Valid()
      reads this, store
    {
      store.Valid()
    }

    /** Mounting the page with the clinic id kept from login and the
        clinic's patients; without an id the page redirects and loads nothing. */
    constructor (store: AppointmentTable, doctors: seq<Doctor>, storedClinicId: Option<Id>,
                 clinicPatients: seq<Patient>)
      requires store.Valid()
      ensures Valid() && this.store == store && this.doctors == doctors
      ensures |newPatientName| == 0 && |selectedPatient| == 0 && newDate == None && |newNotes| == 0
      ensures assigningDoctorFor == None
      ensures !Present(storedClinicId) ==>
                clinicId == None && appointments == [] && patients == [] &&
                inNetworkDoctors == [] && outNetworkDoctors == []
      ensures Present(storedClinicId) ==>
                clinicId == storedClinicId && patients == clinicPatients &&
                appointments == ClinicAppointments(store.Scan(), storedClinicId.value) &&
                inNetworkDoctors == InNetwork(doctors, NetworkIds(store.Scan(), storedClinicId.value)) &&
                outNetworkDoctors == OutNetwork(doctors, NetworkIds(store.Scan(), storedClinicId.value))
    {
      this.store := store;
      this.doctors := doctors;
      newPatientName, selectedPatient, newDate, newNotes := "", "", None, "";
      assigningDoctorFor := None;
      if Present(storedClinicId) {
        var clinic := storedClinicId.value;
        var ids := NetworkIds(store.Scan(), clinic);
        clinicId := storedClinicId;
        appointments := ClinicAppointments(store.Scan(), clinic);
        patients := clinicPatients;
        inNetworkDoctors := InNetwork(doctors, ids);
        outNetworkDoctors := OutNetwork(doctors, ids);
      } else {
        clinicId := None;
        appointments, patients, inNetworkDoctors, outNetworkDoctors := [], [], [], [];
      }
    }

    /** The appointment list shows the clinic's rows, earliest first. */
    ghost predicate ShowsAppointments(clinic: Id)
      reads `appointments, store
      requires store.Valid()
    {
      appointments == ClinicAppointments(store.Scan(), clinic)
    }

    /** The two doctor lists are the directory split by the clinic's rows. */
    ghost predicate ShowsDoctors(clinic: Id)
      reads `inNetworkDoctors, `outNetworkDoctors, store
      requires store.Valid()
    {
      var ids := NetworkIds(store.Scan(), clinic);
      inNetworkDoctors == InNetwork(doctors, ids) && outNetworkDoctors == OutNetwork(doctors, ids)
    }

    /** `fetchAppointments`: re-reads the clinic's rows. */
    method FetchAppointments(clinic: Id)
      requires Valid()
      modifies `appointments
      ensures Valid()
      ensures ShowsAppointments(clinic)
    {
      appointments := ClinicAppointments(store.Scan(), clinic);
    }

    /** `fetchDoctors`: rebuilds both doctor lists from the current rows. */
    method FetchDoctors(clinic: Id)
      requires Valid()
      modifies `inNetworkDoctors, `outNetworkDoctors
      ensures Valid()
      ensures ShowsDoctors(clinic)
    {
      var ids := NetworkIds(store.Scan(), clinic);
      inNetworkDoctors := InNetwork(doctors, ids);
      outNetworkDoctors := OutNetwork(doctors, ids);
    }

    /** `fetchAppointments()` followed by `fetchDoctors()`, as a row change
        triggers both: the two views are rebuilt from one read of the rows. */
    method RefreshViews(clinic: Id)
      requires Valid()
      modifies `appointments, `inNetworkDoctors, `outNetworkDoctors
      ensures Valid()
      ensures ShowsAppointments(clinic) && ShowsDoctors(clinic)
    {
      // The two fetch methods are not called in turn: carrying the first one's
      // postcondition across the second call is too costly for the verifier.
      var rows := store.Scan();
      var ids := NetworkIds(rows, clinic);
      appointments := ClinicAppointments(rows, clinic);
      inNetworkDoctors := InNetwork(doctors, ids);
      outNetworkDoctors := OutNetwork(doctors, ids);
    }

    /** `addPatient`: needs a name and a clinic; the rows the patients table
        returns for the insert are `inserted`. They are appended and the
        first becomes the selected patient. */
    method AddPatient(inserted: seq<Patient>) returns (sent: bool)
      requires Valid()
      modifies `patients, `selectedPatient, `newPatientName
      ensures Valid()
      ensures sent <==> |old(newPatientName)| > 0 && Present(clinicId)
      ensures !sent || |inserted| == 0 ==>
                patients == old(patients) && selectedPatient == old(selectedPatient) &&
                newPatientName == old(newPatientName)
      ensures sent && |inserted| > 0 ==>
                patients == old(patients) + inserted && selectedPatient == inserted[0].id &&
                |newPatientName| == 0
    {
      if |newPatientName| == 0 || !Present(clinicId) {
        return false;
      }
      sent := true;
      if |inserted| > 0 {
        patients := patients + inserted;
        selectedPatient := inserted[0].id;
        newPatientName := "";
      }
    }

    /** The row the create form describes, if it is complete. */
    function Draft(): Option<Appointment>
      reads this
    {
      NewAppointment(selectedPatient, newDate, clinicId, newNotes)
    }

    /** `createAppointment`: inserts an open slot without a doctor for the
        selected patient, refreshes the clinic's list and clears the form. */
    method CreateAppointment() returns (created: Option<nat>)
      requires Valid()
      modifies store, `appointments, `selectedPatient, `newDate, `newNotes
      ensures Valid()
      ensures created.None? <==> old(Draft()).None?
      ensures created.None? ==>
                store.rows == old(store.rows) && store.nextId == old(store.nextId) &&
                appointments == old(appointments) && selectedPatient == old(selectedPatient) &&
                newDate == old(newDate) && newNotes == old(newNotes)
      ensures created.Some? ==>
                created.value !in old(store.rows) &&
                store.rows == old(store.rows)[created.value :=
                  old(Draft()).value.(id := created.value)] &&
                ShowsAppointments(clinicId.value) &&
                |selectedPatient| == 0 && newDate == None && |newNotes| == 0
    {
      var row := Draft();
      if row.None? {
        return None;
      }
      newDate, newNotes, selectedPatient := None, "", "";
      var id := store.Insert(row.value);
      created := Some(id);
      FetchAppointments(clinicId.value);
    }

    /** `assignDoctorToAppointment`: books the slot for the chosen doctor,
        whatever its status, refreshes both views and closes the panel. */
    method AssignDoctorToAppointment(appointmentId: nat, doctorId: Id)
      requires Valid()
      requires clinicId.Some?
      modifies store`rows, `appointments, `inNetworkDoctors, `outNetworkDoctors, `assigningDoctorFor
      ensures Valid()
      ensures store.rows == Book(old(store.rows), appointmentId, doctorId)
      ensures ShowsAppointments(clinicId.value) && ShowsDoctors(clinicId.value)
      ensures assigningDoctorFor == None
    {
      assigningDoctorFor := None;
      store.Update([IdEq(appointmentId)], Patch(Some(doctorId), Booked));
      RefreshViews(clinicId.value);
    }

    /** `toggleAssignDoctor`. */
    method ToggleAssignDoctor(appointmentId: nat)
      modifies `assigningDoctorFor
      ensures assigningDoctorFor == Toggle(old(assigningDoctorFor), appointmentId)
    {
      assigningDoctorFor := Toggle(assigningDoctorFor, appointmentId);
    }
  }
}
