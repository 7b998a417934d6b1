/** Values shared by the pages of the clinic app: the rows of the
    `appointments` table and the directory entries the pages read. */
module Records {

  datatype Option<T> = None | Some(value: T)

  datatype Result<T, E> = Ok(value: T) | Err(error: E)

  /** Doctor, clinic and patient identifiers are opaque strings. */
  type Id = string

  /** The JavaScript truthiness test `!!x` on a `string | null`: neither
      null nor the empty string. */
  predicate Present(x: Option<string>)
  {
    x.Some? && |x.value| > 0
  }

  /** The two values the pages ever write into the `status` column. */
  datatype Status = Open | Booked

  /** A row of the `appointments` table. `id` is the key the store generates;
      `date` is the ordered key the store sorts on (the timestamp itself is
      not modelled). */
  datatype Appointment = Appointment(
    id: nat,
    date: int,
    status: Status,
    notes: Option<string>,
    patientId: Id,
    doctorId: Option<Id>,
    clinicId: Id)

  /** The booking invariant: a row is booked exactly when it names a doctor. */
  predicate BookedIffDoctor(a: Appointment)
  {
    a.status == Booked <==> a.doctorId.Some?
  }

  /** A row of the `patients` table as the dashboard keeps it. */
  datatype Patient = Patient(id: Id, name: string)

  /** A row of the `doctors` table. */
  datatype Doctor = Doctor(id: Id, name: string, specialty: Option<string>)
}
