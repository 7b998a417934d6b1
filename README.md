# Appointment lifecycle of the clinic app

The clinic app has two kinds of user, clinics and doctors; patients are
records a clinic keeps, not users. A clinic creates open appointment
slots for its patients and can assign a doctor to a slot. A doctor picks
open slots and can cancel the bookings they hold. Everyone enters through a
login page that turns a typed name into a doctor or a clinic identity.
Create, assign and pick are each one write to the `appointments` table
followed by a fresh read: create and pick re-read a filtered view ordered by
date; assign re-reads the clinic's date-ordered view and also the doctor ids
its rows name, which is not ordered. Cancel is one conditional update of that
table, after which the page only filters its local list. Adding a patient
inserts into the `patients` table and appends the reply to the local list.
Login writes to no table: it only looks the name up in the doctor and clinic
directories. This project models the appointments table, its views, the page
handlers and the login lookup, and proves what they do to the rows.

Modules:

- `Records`: the row types and the booking invariant "a row is booked
  exactly when it names a doctor".
- `Sequences`: order-preserving filtering (`Array.prototype.filter`) and
  de-duplication (`Array.from(new Set(..))`).
- `Query`: where clauses built from the `.eq(..)` and
  `.not("doctor_id", "is", null)` filters, and ordering by date.
- `Store`: the table as a map from key to row. It has the pure
  where-clause update (`UpdateWhere`, `Book`, `Release`) and the class
  `AppointmentTable`, whose `Insert` and `Update` change the rows in place.
- `Appointments`, `Doctors`, `ClinicDashboard`: one module per page. The
  page's component state is a class whose methods are the page's handlers.
- `Login`: the login page's `handleLogin` as the pure function
  `ResolveLogin`, which returns the identity to store or the error.

The model follows the code as written, including where the code is looser
than a booking system would normally be:

- Pick and assign write `doctor_id` and `booked` to the row with the given
  id whatever its status. A slot another doctor holds is silently taken
  over (`Store.BookTakesOverBookedRow`).
- Cancel filters on both the id and the caller's doctor id. A cancel by
  anyone else matches no row and still counts as a success. The page then
  drops the id from its local list anyway (`Doctors.DoctorPage.CancelBooking`).
- A doctor is "in network" for a clinic when any row of that clinic names
  the doctor, whatever the row's status. Under the booking invariant this
  is the same as holding a booked slot of the clinic
  (`ClinicDashboard.NetworkIdsAreBookedDoctors`).
- Login trims the typed name only to test whether it is blank. Matching
  compares the lower-cased name with the lower-cased untrimmed input. So
  when no doctor or clinic name starts with white space, a non-blank input
  that does is refused as unknown (`Login.PaddedNameIsUnknownInGeneral`).

## Model

| member | source | states |
|---|---|---|
| Query.Where | app/clinic-dashboard/page.tsx:82-86 | chained filters select exactly the rows meeting every condition, each as often as stored, in scan order |
| Query.OrderByDate | app/appointments/page.tsx:28 | `.order("date", ascending)` yields a permutation of its input that is sorted by date |
| Query.SelectByDate | app/appointments/page.tsx:24-28 | a filtered, ordered select is sorted by date and holds exactly the matching rows with their multiplicities |
| Sequences.Keep | app/doctors/page.tsx:58 | `filter` keeps exactly the elements that pass, and never more than it was given |
| Sequences.Unique | app/clinic-dashboard/page.tsx:93 | `Array.from(new Set(xs))` has no duplicates and the same members as `xs` |
| Store.UpdateWhere | app/clinic-dashboard/page.tsx:156-159 | an update with a where clause keeps the key set, patches exactly the matching rows' two columns and leaves every other row and column alone |
| Store.ScanMembers | app/appointments/page.tsx:24-26 | a full scan of a table keyed 0..n-1 returns exactly the stored rows |
| Store.Book | app/clinic-dashboard/page.tsx:156-159 | the update assign issues, and pick issues the same one at app/appointments/page.tsx:48-51: it keeps the keys, sets the doctor and `booked` on every row with that id whatever its status, and leaves every other row as it was |
| Store.Release | app/doctors/page.tsx:49-53 | cancel's update keeps the keys, clears the doctor and sets `open` only on a row with that id whose doctor is the caller, and leaves every other row as it was |
| Store.BookChangesOnlyThatRow | app/clinic-dashboard/page.tsx:156-159 | assign and pick set the doctor and `booked` on the row with that id and change no other row |
| Store.BookTakesOverBookedRow | app/appointments/page.tsx:48-51 | with no status guard, booking a row another doctor holds by a different doctor replaces the holder: the row stays booked and names the new doctor, not the old one |
| Store.BookKeepsBookingInvariant | app/clinic-dashboard/page.tsx:156-159 | assign and pick keep "booked exactly when a doctor is set" on every row |
| Store.ReleaseOnlyByOwner | app/doctors/page.tsx:49-53 | cancel reopens the row only when the caller is its doctor; otherwise the whole table is unchanged |
| Store.ReleaseIdempotent | app/doctors/page.tsx:49-53 | after a cancel no row matches the same where clause, so repeating the cancel changes nothing |
| Store.ReleaseKeepsBookingInvariant | app/doctors/page.tsx:49-53 | cancel keeps "booked exactly when a doctor is set" on every row |
| Store.UpdateKeepsBookingInvariant | app/doctors/page.tsx:50-51 | any update that writes a doctor together with `booked`, or no doctor together with `open`, keeps the invariant |
| Store.AppointmentTable.Insert | app/clinic-dashboard/page.tsx:135-143 | an insert stores the row under a fresh key that was not in use and changes no other row |
| Store.AppointmentTable.Update | app/clinic-dashboard/page.tsx:156-159 | an update replaces the rows by the where-clause update of the old rows and keeps the store's key invariant |
| Appointments.OpenSlots | app/appointments/page.tsx:23-28 | the open-slot view holds exactly the open rows, each as often as stored, sorted by date |
| Appointments.PickedSlotLeavesOpenSlots | app/appointments/page.tsx:46-56 | after a pick and a refresh the picked slot is not offered, and every other open slot still is |
| Appointments.AppointmentsPage.constructor | app/appointments/page.tsx:36-44 | with a stored doctor id the page shows the open slots; without one it keeps no id and shows nothing |
| Appointments.AppointmentsPage.PickAppointment | app/appointments/page.tsx:46-58 | without a doctor id nothing changes; otherwise the row is booked to the doctor and the refreshed list no longer holds it |
| Doctors.DoctorBookings | app/doctors/page.tsx:31-36 | the doctor's view holds exactly the rows naming that doctor, each as often as stored, sorted by date |
| Doctors.WithoutAppointment | app/doctors/page.tsx:57-59 | the local list loses every entry with that id and keeps all the others, in order and with their multiplicities |
| Doctors.CancelledRowLeavesDoctorBookings | app/doctors/page.tsx:47-59 | after the owner cancels, a fresh read of the owner's bookings no longer holds the row, which is stored open and without a doctor |
| Doctors.DoctorPage.constructor | app/doctors/page.tsx:23-45 | with a stored doctor id the page shows that doctor's bookings; without one it shows nothing |
| Doctors.DoctorPage.CancelBooking | app/doctors/page.tsx:47-60 | without a doctor id nothing changes; otherwise the owner-only update is applied and the id is dropped from the local list |
| ClinicDashboard.ClinicAppointments | app/clinic-dashboard/page.tsx:55-60 | the clinic's view holds exactly its rows, each as often as stored, sorted by date |
| ClinicDashboard.ClinicRowsWithDoctor | app/clinic-dashboard/page.tsx:82-86 | the first doctor query returns exactly the clinic's rows that name a doctor |
| ClinicDashboard.DoctorIdsOf | app/clinic-dashboard/page.tsx:93 | mapping rows to `doctor_id` yields exactly the doctors named in those rows |
| ClinicDashboard.NetworkIds | app/clinic-dashboard/page.tsx:82-93 | the in-network ids are the distinct doctors named by any of the clinic's rows, whatever the status |
| ClinicDashboard.InNetwork | app/clinic-dashboard/page.tsx:106 | the in-network list holds exactly the directory's doctors whose id is in the set |
| ClinicDashboard.OutNetwork | app/clinic-dashboard/page.tsx:107 | the out-of-network list holds exactly the directory's doctors whose id is not in the set |
| ClinicDashboard.NetworkPartition | app/clinic-dashboard/page.tsx:105-107 | the two lists are disjoint and together cover the directory with its multiplicities, and each keeps the directory's order |
| ClinicDashboard.NetworkIdsAreBookedDoctors | app/clinic-dashboard/page.tsx:82-93 | under the booking invariant, a doctor is in network exactly when the doctor holds a booked slot of the clinic |
| ClinicDashboard.AssignedDoctorIsInNetwork | app/clinic-dashboard/page.tsx:155-164 | after a doctor is assigned to a slot of the clinic, a fresh read puts that doctor in network |
| ClinicDashboard.Toggle | app/clinic-dashboard/page.tsx:169-171 | the panel closes when opened for the same slot and otherwise opens for the given slot |
| ClinicDashboard.ToggleTwice | app/clinic-dashboard/page.tsx:169-171 | toggling one slot twice from closed, or from open on that slot, returns to the start |
| ClinicDashboard.NewAppointment | app/clinic-dashboard/page.tsx:133-143 | no row without a patient, a date and a clinic; otherwise an open row with no doctor, the given clinic, patient and date, and null notes exactly when the notes are empty |
| ClinicDashboard.NewAppointmentKeepsBookingInvariant | app/clinic-dashboard/page.tsx:137-143 | inserting a created row keeps "booked exactly when a doctor is set" |
| ClinicDashboard.Dashboard.constructor | app/clinic-dashboard/page.tsx:42-52 | with a stored clinic id the page loads the clinic's view, its patients and both doctor lists; without one it loads nothing |
| ClinicDashboard.Dashboard.FetchAppointments | app/clinic-dashboard/page.tsx:55-65 | the appointment list becomes the clinic's view of the current rows |
| ClinicDashboard.Dashboard.FetchDoctors | app/clinic-dashboard/page.tsx:80-111 | the two doctor lists become the directory split by the current in-network ids |
| ClinicDashboard.Dashboard.RefreshViews | app/clinic-dashboard/page.tsx:163-164 | both refreshes after an assign: the clinic's view and both doctor lists match the current rows |
| ClinicDashboard.Dashboard.AddPatient | app/clinic-dashboard/page.tsx:114-129 | no insert without a name and a clinic; otherwise the returned patients are appended after the old ones, the first is selected and the name is cleared |
| ClinicDashboard.Dashboard.CreateAppointment | app/clinic-dashboard/page.tsx:132-152 | an incomplete form changes nothing; otherwise the created row is stored under a fresh key, the clinic's view is refreshed and the form is cleared |
| ClinicDashboard.Dashboard.AssignDoctorToAppointment | app/clinic-dashboard/page.tsx:155-167 | the row with that id is booked to the doctor whatever its status, both views are refreshed and the panel closes |
| ClinicDashboard.Dashboard.ToggleAssignDoctor | app/clinic-dashboard/page.tsx:169-171 | the panel state becomes the toggle of the old state |
| Login.FindByName | app/login/page.tsx:34-39 | `find` returns the first entry whose lower-cased name equals the lower-cased input, or none when no entry matches |
| Login.TrimEmptyIffBlank | app/login/page.tsx:32 | `trim()` is empty exactly when the input is white space only |
| Login.ResolveLogin | app/login/page.tsx:31-50 | a blank name is refused; a doctor match wins over a clinic match; the first match in list order is chosen; no match reports an unknown name |
| Login.LoginIgnoresCase | app/login/page.tsx:34-39 | two inputs with the same lower-case form log in the same way |
| Login.PaddedInputMatchesNone | app/login/page.tsx:34-39 | an input starting with white space matches no entry whose name does not start with white space |
| Login.PaddedNameIsUnknownInGeneral | app/login/page.tsx:31-49 | when no directory name starts with white space, a non-blank input that does is refused as an unknown name |
| Login.PaddedNameIsUnknown | app/login/page.tsx:32-39 | a real name with a leading space is not blank, yet matches nobody |
| Login.DoctorWinsOverClinic | app/login/page.tsx:41-46 | a name shared by a doctor and a clinic, typed in capitals, logs in as the doctor |

## Left out

- Supabase errors and `console.error`: every insert, update and select succeeds, so only the success branches are modelled.
- The `loading` flags, JSX rendering, the router, `goHome` and `handleDoneBooking`: these are presentation and navigation.
- `localStorage`: the stored doctor or clinic id is a constructor parameter, and a login result is returned as an `Identity` value.
- Date parsing and formatting (`new Date(newDate).toISOString()`, `toLocaleString`): a date is an ordered integer key. The throw on an unparsable date is not modelled.
- Unicode `toLowerCase`: only the ASCII letters A-Z are lower-cased.
- `Promise.all` in the login page's data load: the doctor and clinic lists are parameters.
- `fetchPatients`: the clinic's patients are a constructor parameter, and the rows the patients table returns for an insert are a parameter of `AddPatient`.
- Asynchrony: handlers and the refreshes they start without awaiting are modelled as running to completion in order. Interleavings and races between users are not modelled.
- The order of rows with equal dates is a stable sort of the key order. The database leaves that order open.
- The `status` column takes only the two values the pages write, `open` and `booked`.
- The `onChange` setters of the form fields are plain field assignments and are not modelled as methods.
- app/CreateApt.tsx is not part of this model.
- ClinicDashboard.Dashboard.AssignDoctorToAppointment: the method's contract does not itself say that the doctor becomes in network. `ClinicDashboard.AssignedDoctorIsInNetwork` states this for the rows the method reads.
- ClinicDashboard.Dashboard.CreateAppointment: the form is cleared before the insert rather than after the refresh. The end state is the same because a failed insert is not modelled.
- ClinicDashboard.Dashboard.RefreshViews: the two non-awaited refreshes that follow an assign are one step reading the rows once.
