# Attendance rule, geofence polygon test and sign-in logic of an employee time-tracking app

This project models the decision logic of an Android time-tracking app in which employees
clock in and out of a geofenced work site and their daily time record (DTR) is stored in a
hosted document store. Three pieces of the app are modelled and proved:

- **The DTR clock-in/out rule** (`activity/DTRActivity.kt`, module `Attendance`, with the
  record-id formatting in module `DateKey`). One clock event takes today's record (or none),
  the hour of day, whether the user is inside the geofence and the current time. It picks at
  most one of the four timestamps (morning/afternoon arrival/departure), merges it into the
  record or creates a new one, and overwrites the document `"{email}-{yyyy-MM-dd}"` in the
  `dtr_records` table. The table is the `records` map of class `DTRStore`.
  `ChooseField` is checked against an independent reference definition, `Eligible`, which is the
  half-day state machine (not arrived, arrived, departed). The lemmas prove:
  - which field is stamped, for each branch;
  - that nothing else changes and a set field is never overwritten;
  - that a new record is only created by an arrival;
  - that repeating an event is a no-op;
  - that "departure implies arrival" is kept, as is "departure no earlier than arrival" when
    the clock does not run backwards.
- **The even-odd point-in-polygon test** (`activity/GeofenceUtils.kt`, module `Geofence`).
  `IsPointInPolygon` keeps the source's loop, with `isInside` toggled and `j` trailing `i`. It is
  proved equal to `Inside`, which holds when an odd number of the edges (polygon[i],
  polygon[i-1]) pass the crossing test, the closing edge included. The lemmas prove:
  - the division is only reached with a non-zero denominator;
  - fewer than three vertices never contain a point;
  - rotating the vertex list does not change the answer;
  - the answers for a concrete square.
- **The sign-in and sign-up form logic** (`viewmodel/AuthController.kt`, module `Auth`): the
  email-to-role mapping, the one-field update of the sign-up form state (`UserModel`), and the
  blank-credential guard at the top of `login`.

Inputs: the wall clock, the calendar, the user's position and the backend's answers are
parameters. These are the current time, the hour, the calendar year/month/day, the inside flag,
and whether the store read and write succeed. Timestamps (`java.util.Date`) are integers and
coordinates are exact reals.

Where the app's documented design and its code differ, the model follows the code:
- The code reports no reason when an event is ignored: there is no "already arrived" or
  "not yet arrived" code, only no write. `Outcome.NoStamp` models this.
- The code never compares a departure time with its arrival time. `PreservesOrdered` therefore
  needs the assumption that the clock does not run backwards.
- A new record's email is the record id cut at its first '-' (`recordId.split("-")[0]`). An
  email that contains '-' is stored truncated (`DateKey.EmailFromRecordId`).
- No circular distance formula exists in the modelled code, so none is modelled.

## Model

| member | source | states |
|---|---|---|
| `DateKey.ZeroPadRoundTrip` | app/src/main/java/com/example/firebaseauth/activity/DTRActivity.kt:115 | `%0wd` writes only decimal digits, and reading them back gives the number |
| `DateKey.ZeroPadWidth` | app/src/main/java/com/example/firebaseauth/activity/DTRActivity.kt:115 | a number below 10^w is written in exactly w characters |
| `DateKey.CurrentDateRoundTrip` | app/src/main/java/com/example/firebaseauth/activity/DTRActivity.kt:108-116 | for years up to 9999 the date part is exactly 10 characters and parses back to year, Calendar month + 1 and day |
| `DateKey.BeforeFirst` | app/src/main/java/com/example/firebaseauth/activity/DTRActivity.kt:89 | `split("-")[0]` is the longest prefix without '-', ending where the first '-' stands |
| `DateKey.EmailFromRecordId` | app/src/main/java/com/example/firebaseauth/activity/DTRActivity.kt:20-89 | the email recovered from `email-yyyy-MM-dd` is the email cut at its first '-': unchanged without '-', strictly shorter with one |
| `Attendance.ChooseField` | app/src/main/java/com/example/firebaseauth/activity/DTRActivity.kt:25-65 | the field chosen is exactly the one the half-day state machine allows (`Eligible`), and none when no field is allowed |
| `Attendance.StampFor` | app/src/main/java/com/example/firebaseauth/activity/DTRActivity.kt:27-63 | each call site passes `currentTime` for its one named field and null for the other three |
| `Attendance.UpdatedRecord` | app/src/main/java/com/example/firebaseauth/activity/DTRActivity.kt:83-95 | a copy keeps email and date and lets each non-null stamp win over the stored field; a new record has the id's prefix as email and the current time as date |
| `Attendance.ClockInOut` | app/src/main/java/com/example/firebaseauth/activity/DTRActivity.kt:25-95 | nothing is written iff no field is eligible; otherwise exactly the stamped field, null before, becomes `currentTime` and every other field, email and date keep their values |
| `Attendance.MorningArrivalStamped` | app/src/main/java/com/example/firebaseauth/activity/DTRActivity.kt:25-34 | inside before hour 12 with no morning arrival: only the morning arrival changes, to the current time |
| `Attendance.AfternoonArrivalStamped` | app/src/main/java/com/example/firebaseauth/activity/DTRActivity.kt:35-44 | inside from hour 12 with no afternoon arrival: the afternoon arrival is stamped whatever the morning fields hold |
| `Attendance.DepartureRule` | app/src/main/java/com/example/firebaseauth/activity/DTRActivity.kt:46-64 | a departure is stamped iff the user is outside, in its half-day, that half's arrival is set and its departure is not |
| `Attendance.NoRecordNoDeparture` | app/src/main/java/com/example/firebaseauth/activity/DTRActivity.kt:45-65 | outside with no record, nothing is written |
| `Attendance.NewRecordOnlyByArrival` | app/src/main/java/com/example/firebaseauth/activity/DTRActivity.kt:25-95 | when no record exists, only an arrival inside the geofence writes one |
| `Attendance.FreshRecordShape` | app/src/main/java/com/example/firebaseauth/activity/DTRActivity.kt:88-95 | a new record has date = current time, email = id up to the first '-', and only the stamped field non-null |
| `Attendance.RepeatIsNoOp` | app/src/main/java/com/example/firebaseauth/activity/DTRActivity.kt:25-87 | the same event (same hour, same side of the fence) applied to the written record writes nothing |
| `Attendance.HalfDayIndependence` | app/src/main/java/com/example/firebaseauth/activity/DTRActivity.kt:25-65 | a morning event leaves the afternoon fields as they were, and vice versa |
| `Attendance.PreservesConsistent` | app/src/main/java/com/example/firebaseauth/activity/DTRActivity.kt:46-64 | if each departure had its arrival before the event, it still does after |
| `Attendance.PreservesOrdered` | app/src/main/java/com/example/firebaseauth/activity/DTRActivity.kt:46-64 | with no stored stamp later than the current time, each departure stays no earlier than its arrival |
| `Attendance.ArrivalThenEarlyDeparture` | app/src/main/java/com/example/firebaseauth/activity/DTRActivity.kt:20-95 | for "a@x.com": an event at 9:00 inside creates a record with only the morning arrival; then 13:00 outside writes nothing |
| `Attendance.DTRStore.constructor` | app/src/main/java/com/example/firebaseauth/activity/DTRActivity.kt:10 | the store starts with the given table |
| `Attendance.DTRStore.HandleClockInOut` | app/src/main/java/com/example/firebaseauth/activity/DTRActivity.kt:12-106 | a failed read writes nothing; otherwise the outcome follows `ClockInOut` on the entry at the record id, and the table changes only at that id, only after a successful write; consistency of all records is kept |
| `Geofence.Crosses` | app/src/main/java/com/example/firebaseauth/activity/GeofenceUtils.kt:32-33 | an edge that passes the test has endpoints of different latitudes, so an edge of equal latitudes never counts and the division never sees zero |
| `Geofence.IsPointInPolygon` | app/src/main/java/com/example/firebaseauth/activity/GeofenceUtils.kt:28-40 | the loop returns true iff an odd number of edges (polygon[i], polygon[i-1]), the closing edge included, pass the crossing test; an empty list gives false |
| `Geofence.LineLongitudeSymmetric` | app/src/main/java/com/example/firebaseauth/activity/GeofenceUtils.kt:33 | the edge's longitude at the point's latitude is the same computed from either endpoint |
| `Geofence.CrossesSymmetric` | app/src/main/java/com/example/firebaseauth/activity/GeofenceUtils.kt:32-33 | the crossing test gives the same answer for an edge in either direction |
| `Geofence.FewerThanThreeVerticesOutside` | app/src/main/java/com/example/firebaseauth/activity/GeofenceUtils.kt:29-39 | fewer than three vertices never contain a point |
| `Geofence.RotationInvariant` | app/src/main/java/com/example/firebaseauth/activity/GeofenceUtils.kt:30-38 | rotating the vertex list cyclically does not change the answer |
| `Geofence.MeridianEdgeCrossing` | app/src/main/java/com/example/firebaseauth/activity/GeofenceUtils.kt:32-33 | a point between the latitudes of an edge along a meridian crosses it exactly when it lies west of the meridian |
| `Geofence.SquareContainsCentre` | app/src/main/java/com/example/firebaseauth/activity/GeofenceUtils.kt:28-40 | for the square (0,0),(0,10),(10,10),(10,0), the point (5,5) is inside |
| `Geofence.SquareExcludesFarPoint` | app/src/main/java/com/example/firebaseauth/activity/GeofenceUtils.kt:28-40 | for the same square, the point (15,15) is outside |
| `Geofence.SquareEdgePointOutside` | app/src/main/java/com/example/firebaseauth/activity/GeofenceUtils.kt:28-40 | for the same square, the point (0,5) on its edge comes out outside, deterministically |
| `Auth.AssignRoleBasedOnEmail` | app/src/main/java/com/example/firebaseauth/viewmodel/AuthController.kt:106-111 | the role is "admin" or "employee", and "admin" exactly for "admin10@example.com" (null gives "employee") |
| `Auth.UpdatedUser` | app/src/main/java/com/example/firebaseauth/viewmodel/AuthController.kt:58-67 | only the field named by the key changes ("email", "username", "employeeId"); uid and role never change |
| `Auth.UnknownFieldIgnored` | app/src/main/java/com/example/firebaseauth/viewmodel/AuthController.kt:63-65 | any other key leaves the user state as it is |
| `Auth.CapitalIdIgnored` | app/src/main/java/com/example/firebaseauth/viewmodel/AuthController.kt:62-65 | the key "employeeID" with a capital D changes nothing |
| `Auth.UpdateIdempotent` | app/src/main/java/com/example/firebaseauth/viewmodel/AuthController.kt:58-67 | applying the same update twice is the same as once |
| `Auth.SignInRequest` | app/src/main/java/com/example/firebaseauth/viewmodel/AuthController.kt:69-75 | no sign-in is requested iff the email or the password is null or blank; otherwise exactly the given credentials are sent |
| `Auth.BlankLoginRejected` | app/src/main/java/com/example/firebaseauth/viewmodel/AuthController.kt:70-73 | an empty email, a whitespace-only email and a null password are rejected; ordinary credentials go through |
| `Auth.AuthController.constructor` | app/src/main/java/com/example/firebaseauth/viewmodel/AuthController.kt:43-56 | the state starts Authenticated when a user is signed in, else Unauthenticated, with a default user model |
| `Auth.AuthController.UpdateUser` | app/src/main/java/com/example/firebaseauth/viewmodel/AuthController.kt:58-67 | the form state becomes `UpdatedUser` of the old one; nothing else changes |
| `Auth.AuthController.Login` | app/src/main/java/com/example/firebaseauth/viewmodel/AuthController.kt:69-75 | returns without a request on blank input; otherwise appends one sign-in request; the auth state is untouched |

## Left out

- The backend calls are not modelled: Firestore `get()`/`set()`, `signInWithEmailAndPassword`,
  `createUserWithEmailAndPassword` (`signup`) and `signOut`. Only their success or failure
  enters, as a boolean input.
- The completion listener of `login` is out: it sets Authenticated and navigates by role. Its
  role decision is `AssignRoleBasedOnEmail`.
- Toasts, logging and the `onTimeStamped` callback are left out. The callback runs exactly when
  the outcome is `Saved`.
- `validateGeofenceAccess` is not modelled: it reads the device location through the platform.
  The geofence fetch and the circular geofences handled by the platform are left out too.
- Reading the wall clock and the calendar is not modelled. The time, the hour of day and the
  calendar year, month and day are inputs.
- Two overlapping clock events can race between the read and the write. This is concurrency;
  the model covers one sequential call.
- `Geofence.IsPointInPolygon`: coordinates are exact reals, not IEEE doubles. Rounding can
  change the answer for points very near an edge, and with doubles the two-vertex cancellation
  is not guaranteed.
- `DateKey.FormatDate`: the year, month and day are non-negative. Digits are ASCII, whatever the
  default locale `String.format` would use. Negative numbers are not modelled.
- Deserialising a stored document into a `DTRRecord` is not modelled, including its defaults
  for missing fields. The model takes the stored record as it is.
- `Auth.IsWhitespace` follows Java's current Unicode tables. Older tables, which also count
  U+180E as a space separator, are not modelled.
