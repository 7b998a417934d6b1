/** The `appointments` table as an in-memory map from key to row, with the
    insert and the where-clause update the pages issue against it. */
module Store {
  import opened Records
  import opened Query

  type Table = map<nat, Appointment>

  /** Every row is stored under its own id. */
  ghost predicate WellKeyed(t: Table)
  {
    forall k :: k in t ==> t[k].id == k
  }

  /** Every stored row satisfies the booking invariant. */
  ghost predicate BookingInvariant(t: Table)
  {
    forall k :: k in t ==> BookedIffDoctor(t[k])
  }

  /** The columns an update sets; the pages only ever write these two together. */
  datatype Patch = Patch(doctorId: Option<Id>, status: Status)

  function Apply(p: Patch, a: Appointment): Appointment
  {
    a.(doctorId := p.doctorId, status := p.status)
  }

  /** `.update(p)` followed by the filters `fs`: patches every row the where
      clause selects and leaves the others; it reports no error when nothing
      matches. */
  function UpdateWhere(t: Table, fs: seq<Filter>, p: Patch): (r: Table)
    ensures r.Keys == t.Keys
    ensures forall k :: k in t && !AllHold(fs, t[k]) ==> r[k] == t[k]
    ensures forall k :: k in t && AllHold(fs, t[k]) ==>
              r[k].doctorId == p.doctorId && r[k].status == p.status &&
              r[k] == t[k].(doctorId := r[k].doctorId, status := r[k].status)
  {
    map k | k in t :: if AllHold(fs, t[k]) then Apply(p, t[k]) else t[k]
  }

  /** `update({ doctor_id, status: "booked" }).eq("id", id)`: shared by the
      clinic's assign and the doctor's pick. No condition on the current status. */
  function Book(t: Table, id: nat, doctor: Id): (r: Table)
    ensures r.Keys == t.Keys
    ensures forall k :: k in t ==>
              r[k] == if t[k].id == id then t[k].(doctorId := Some(doctor), status := Booked) else t[k]
  {
    assert forall k :: k in t ==> (AllHold([IdEq(id)], t[k]) <==> t[k].id == id);
    UpdateWhere(t, [IdEq(id)], Patch(Some(doctor), Booked))
  }

  /** `update({ doctor_id: null, status: "open" }).eq("id", id).eq("doctor_id", doctor)`. */
  function Release(t: Table, id: nat, doctor: Id): (r: Table)
    ensures r.Keys == t.Keys
    ensures forall k :: k in t ==>
              r[k] == if t[k].id == id && t[k].doctorId == Some(doctor)
                      then t[k].(doctorId := None, status := Open) else t[k]
  {
    var fs := [IdEq(id), DoctorEq(doctor)];
    assert fs[1..] == [DoctorEq(doctor)] && fs[1..][1..] == [];
    assert forall k :: k in t ==> (AllHold(fs, t[k]) <==> t[k].id == id && t[k].doctorId == Some(doctor)) by {
      forall k | k in t
        ensures AllHold(fs, t[k]) <==> t[k].id == id && t[k].doctorId == Some(doctor)
      {
        assert AllHold(fs[1..], t[k]) <==> t[k].doctorId == Some(doctor);
      }
    }
    UpdateWhere(t, fs, Patch(None, Open))
  }

  /** The rows with keys below `n`, in key order: how a select scans the table. */
  function ScanTable(t: Table, n: nat): (r: seq<Appointment>)
    requires forall k :: 0 <= k < n ==> k in t
    ensures |r| == n
    ensures forall k :: 0 <= k < n ==> r[k] == t[k]
  {
    seq(n, k requires 0 <= k < n => t[k])
  }

  /** A full scan of a table keyed 0..n-1 yields exactly its stored rows. */
  lemma ScanMembers(t: Table, n: nat)
    requires WellKeyed(t)
    requires forall k: int :: k in t <==> 0 <= k < n
    ensures forall a :: a in ScanTable(t, n) <==> a.id in t && t[a.id] == a
  {
    var s := ScanTable(t, n);
    forall a: Appointment | a.id in t && t[a.id] == a
      ensures a in s
    {
      assert s[a.id] == a;
    }
  }

  /** A write whose two columns agree with each other keeps the invariant. */
  lemma UpdateKeepsBookingInvariant(t: Table, fs: seq<Filter>, p: Patch)
    requires BookingInvariant(t)
    requires p.status == Booked <==> p.doctorId.Some?
    ensures BookingInvariant(UpdateWhere(t, fs, p))
  {
  }

  /** Assign and pick keep "booked exactly when a doctor is set". */
  lemma BookKeepsBookingInvariant(t: Table, id: nat, doctor: Id)
    requires BookingInvariant(t)
    ensures BookingInvariant(Book(t, id, doctor))
  {
    UpdateKeepsBookingInvariant(t, [IdEq(id)], Patch(Some(doctor), Booked));
  }

  /** Cancel keeps "booked exactly when a doctor is set". */
  lemma ReleaseKeepsBookingInvariant(t: Table, id: nat, doctor: Id)
    requires BookingInvariant(t)
    ensures BookingInvariant(Release(t, id, doctor))
  {
    UpdateKeepsBookingInvariant(t, [IdEq(id), DoctorEq(doctor)], Patch(None, Open));
  }

  /** Booking sets the doctor and `booked` on the row with that id, whatever
      its status was, and on no other row. */
  lemma BookChangesOnlyThatRow(t: Table, id: nat, doctor: Id)
    requires WellKeyed(t)
    ensures Book(t, id, doctor).Keys == t.Keys
    ensures WellKeyed(Book(t, id, doctor))
    ensures id in t ==> Book(t, id, doctor)[id] == t[id].(doctorId := Some(doctor), status := Booked)
    ensures forall k :: k in t && k != id ==> Book(t, id, doctor)[k] == t[k]
  {
    assert forall k :: k in t ==> (AllHold([IdEq(id)], t[k]) <==> k == id);
  }

  /** No status guard: a row booked by one doctor is taken over by another. */
  lemma BookTakesOverBookedRow(t: Table, id: nat, first: Id, second: Id)
    requires WellKeyed(t)
    requires id in t && t[id].status == Booked && t[id].doctorId == Some(first)
    requires first != second
    ensures Book(t, id, second)[id].status == Booked
    ensures Book(t, id, second)[id].doctorId == Some(second)
    ensures Book(t, id, second)[id].doctorId != t[id].doctorId
  {
    BookChangesOnlyThatRow(t, id, second);
  }

  /** Cancel opens the row only when the caller is its doctor; otherwise
      the table is left exactly as it was. */
  lemma ReleaseOnlyByOwner(t: Table, id: nat, doctor: Id)
    requires WellKeyed(t)
    ensures Release(t, id, doctor).Keys == t.Keys
    ensures WellKeyed(Release(t, id, doctor))
    ensures id in t && t[id].doctorId == Some(doctor) ==>
              Release(t, id, doctor)[id] == t[id].(doctorId := None, status := Open)
    ensures !(id in t && t[id].doctorId == Some(doctor)) ==> Release(t, id, doctor) == t
    ensures forall k :: k in t && k != id ==> Release(t, id, doctor)[k] == t[k]
  {
    var fs := [IdEq(id), DoctorEq(doctor)];
    assert fs[1..] == [DoctorEq(doctor)] && fs[1..][1..] == [];
    forall k | k in t
      ensures AllHold(fs, t[k]) <==> k == id && t[k].doctorId == Some(doctor)
    {
      assert AllHold(fs[1..], t[k]) <==> t[k].doctorId == Some(doctor);
    }
  }

  /** After a cancel no row matches the same cancel's where clause, so a
      second identical cancel changes nothing. */
  lemma ReleaseIdempotent(t: Table, id: nat, doctor: Id)
    requires WellKeyed(t)
    ensures forall k :: k in Release(t, id, doctor) ==>
              !AllHold([IdEq(id), DoctorEq(doctor)], Release(t, id, doctor)[k])
    ensures Release(Release(t, id, doctor), id, doctor) == Release(t, id, doctor)
  {
    ReleaseOnlyByOwner(t, id, doctor);
    var once := Release(t, id, doctor);
    ReleaseOnlyByOwner(once, id, doctor);
  }

  /** The table behind the pages. Keys are handed out in order and rows are
      never deleted, so the keys in use are exactly 0..nextId-1. */
  class AppointmentTable {
    var rows: Table
    var nextId: nat

    ghost predicate Valid()
      reads this
    {
      WellKeyed(rows) && (forall k: int :: k in rows <==> 0 <= k < nextId)
    }

    constructor ()
      ensures Valid() && rows == map[] && nextId == 0
    {
      rows := map[];
      nextId := 0;
    }

    /** Every row, in key order. */
    function Scan(): (r: seq<Appointment>)
      reads this
      requires Valid()
    {
      ScanTable(rows, nextId)
    }

    /** `insert(row)`: stores `row` under a fresh key, which it returns. */
    method Insert(row: Appointment) returns (id: nat)
      requires Valid()
      modifies this
      ensures Valid()
      ensures id !in old(rows) && id == old(nextId)
      ensures rows == old(rows)[id := row.(id := id)]
    {
      id := nextId;
      rows := rows[id := row.(id := id)];
      nextId := nextId + 1;
    }

    /** `update(p)` with the where clause `fs`. */
    method Update(fs: seq<Filter>, p: Patch)
      requires Valid()
      modifies `rows
      ensures Valid()
      ensures rows == UpdateWhere(old(rows), fs, p)
    {
      rows := UpdateWhere(rows, fs, p);
    }
  }
}
