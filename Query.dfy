/** Reads against the `appointments` table: a where clause made of
    PostgREST filters (`.eq(column, value)`, `.not("doctor_id", "is", null)`)
    and the `.order("date", { ascending: true })` modifier. */
module Query {
  import opened Records
  import opened Sequences

  /** One condition of a where clause. */
  datatype Filter =
    | IdEq(id: nat)
    | StatusEq(status: Status)
    | DoctorEq(doctor: Id)
    | ClinicEq(clinic: Id)
    | DoctorNotNull

  /** SQL semantics: `doctor_id = d` never holds of a null doctor. */
  predicate Holds(f: Filter, a: Appointment)
  {
    match f
    case IdEq(id) => a.id == id
    case StatusEq(s) => a.status == s
    case DoctorEq(d) => a.doctorId == Some(d)
    case ClinicEq(c) => a.clinicId == c
    case DoctorNotNull => a.doctorId.Some?
  }

  /** Chained filters are a conjunction. */
  predicate AllHold(fs: seq<Filter>, a: Appointment)
  {
    |fs| == 0 || (Holds(fs[0], a) && AllHold(fs[1..], a))
  }

  /** The rows the where clause selects, in scan order. */
  function Where(rows: seq<Appointment>, fs: seq<Filter>): (r: seq<Appointment>)
    ensures forall a :: a in r ==> a in rows && AllHold(fs, a)
    ensures forall a :: a in rows && AllHold(fs, a) ==> a in r
    ensures forall a :: multiset(r)[a] == if AllHold(fs, a) then multiset(rows)[a] else 0
    ensures IsSubsequence(r, rows)
  {
    KeepCount(rows, a => AllHold(fs, a));
    KeepIsSubsequence(rows, a => AllHold(fs, a));
    Keep(rows, a => AllHold(fs, a))
  }

  predicate SortedByDate(rows: seq<Appointment>)
  {
    forall i, j :: 0 <= i < j < |rows| ==> rows[i].date <= rows[j].date
  }

  /** Places `a` before the first row of `sorted` that is not earlier. */
  function InsertByDate(a: Appointment, sorted: seq<Appointment>): (r: seq<Appointment>)
    requires SortedByDate(sorted)
    ensures SortedByDate(r)
    ensures multiset(r) == multiset(sorted) + multiset{a}
    ensures r[0] == a || (|sorted| > 0 && r[0] == sorted[0])
  {
    if |sorted| == 0 || a.date <= sorted[0].date then [a] + sorted
    else
      assert sorted == [sorted[0]] + sorted[1..];
      [sorted[0]] + InsertByDate(a, sorted[1..])
  }

  /** `.order("date", { ascending: true })`: a stable insertion sort. */
  function OrderByDate(rows: seq<Appointment>): (r: seq<Appointment>)
    ensures SortedByDate(r)
    ensures multiset(r) == multiset(rows)
  {
    if |rows| == 0 then []
    else
      assert rows == [rows[0]] + rows[1..];
      InsertByDate(rows[0], OrderByDate(rows[1..]))
  }

  /** `select("*")` with a where clause, ordered by date: every selected row
      exactly as often as it is stored, earliest first. */
  function SelectByDate(rows: seq<Appointment>, fs: seq<Filter>): (r: seq<Appointment>)
    ensures SortedByDate(r)
    ensures forall a :: multiset(r)[a] == if AllHold(fs, a) then multiset(rows)[a] else 0
    ensures forall a :: a in r <==> a in rows && AllHold(fs, a)
  {
    OrderByDate(Where(rows, fs))
  }
}
