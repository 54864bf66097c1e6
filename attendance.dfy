/**
 * The daily time record (DTR) rule of `DTRActivity`: given today's record (if
 * any), the hour of day, whether the user is inside the geofence and the
 * current time, pick at most one of the four timestamps to stamp, merge it
 * into the record (or create one), and overwrite that record in the
 * `dtr_records` table.
 */
module Attendance {

  import opened Wrappers
  import DateKey

  /** A `java.util.Date`, as a point in time. */
  type Timestamp = int

  /** `DTRRecord`: every field of the Kotlin data class is nullable. */
  datatype DTRRecord = DTRRecord(
    email: Option<string>,
    date: Option<Timestamp>,
    morningArrival: Option<Timestamp>,
    morningDeparture: Option<Timestamp>,
    afternoonArrival: Option<Timestamp>,
    afternoonDeparture: Option<Timestamp>)

  /** The four timestamps of a record. */
  datatype Field = MorningArrival | MorningDeparture | AfternoonArrival | AfternoonDeparture {

    predicate IsArrival() {
      this == MorningArrival || this == AfternoonArrival
    }

    predicate IsMorning() {
      this == MorningArrival || this == MorningDeparture
    }

    /** The arrival of the same half-day. */
    function Arrival(): (f: Field)
      ensures f.IsArrival() && f.IsMorning() == IsMorning()
    {
      if IsMorning() then MorningArrival else AfternoonArrival
    }
  }

  function FieldOf(r: DTRRecord, f: Field): Option<Timestamp> {
    match f
    case MorningArrival => r.morningArrival
    case MorningDeparture => r.morningDeparture
    case AfternoonArrival => r.afternoonArrival
    case AfternoonDeparture => r.afternoonDeparture
  }

  /** `currentRecord?.<field>`: a missing record reads as all fields null. */
  function Lookup(current: Option<DTRRecord>, f: Field): Option<Timestamp> {
    if current.Some? then FieldOf(current.value, f) else None
  }

  /**
   * Reference definition of the half-day state machine: field `f` may be
   * stamped when it belongs to the current half-day (morning before hour
   * 12), it is an arrival exactly when the user is inside the geofence, it
   * is still null, and, for a departure, the same half-day's arrival is set.
   */
  predicate Eligible(current: Option<DTRRecord>, currentHour: int, insideGeofence: bool, f: Field) {
    && f.IsMorning() == (currentHour < 12)
    && f.IsArrival() == insideGeofence
    && Lookup(current, f).None?
    && (!f.IsArrival() ==> Lookup(current, f.Arrival()).Some?)
  }

  /**
   * The branch taken in the success listener of `handleClockInOut`: which
   * field, if any, is stamped. It is the one eligible field, and nothing is
   * stamped when no field is eligible.
   */
  function ChooseField(current: Option<DTRRecord>, currentHour: int, insideGeofence: bool): (r: Option<Field>)
    ensures forall f :: r == Some(f) <==> Eligible(current, currentHour, insideGeofence, f)
  {
    if insideGeofence then
      if currentHour < 12 && Lookup(current, MorningArrival).None? then Some(MorningArrival)
      else if currentHour >= 12 && Lookup(current, AfternoonArrival).None? then Some(AfternoonArrival)
      else None
    else
      if currentHour < 12 && Lookup(current, MorningArrival).Some? && current.value.morningDeparture.None? then
        Some(MorningDeparture)
      else if currentHour >= 12 && Lookup(current, AfternoonArrival).Some? && current.value.afternoonDeparture.None? then
        Some(AfternoonDeparture)
      else None
  }

  /** The four optional timestamp arguments of `updateDTRRecord` (all default to null). */
  datatype Stamps = Stamps(
    morningArrival: Option<Timestamp>,
    afternoonArrival: Option<Timestamp>,
    morningDeparture: Option<Timestamp>,
    afternoonDeparture: Option<Timestamp>)

  function StampOf(s: Stamps, f: Field): Option<Timestamp> {
    match f
    case MorningArrival => s.morningArrival
    case MorningDeparture => s.morningDeparture
    case AfternoonArrival => s.afternoonArrival
    case AfternoonDeparture => s.afternoonDeparture
  }

  /** The arguments a call site passes: the one named field set to `currentTime`. */
  function StampFor(f: Field, currentTime: Timestamp): (s: Stamps)
    ensures forall g :: StampOf(s, g) == if g == f then Some(currentTime) else None
  {
    match f
    case MorningArrival => Stamps(Some(currentTime), None, None, None)
    case AfternoonArrival => Stamps(None, Some(currentTime), None, None)
    case MorningDeparture => Stamps(None, None, Some(currentTime), None)
    case AfternoonDeparture => Stamps(None, None, None, Some(currentTime))
  }

  /**
   * The record `updateDTRRecord` writes: a copy of the existing record where
   * each given stamp wins over the stored value, or else a new record whose
   * email is the record id up to its first '-' and whose date is the current
   * time.
   */
  function UpdatedRecord(recordId: string, current: Option<DTRRecord>, currentTime: Timestamp, s: Stamps): (r: DTRRecord)
    ensures current.Some? ==> r.email == current.value.email && r.date == current.value.date
    ensures current.None? ==> r.email == Some(DateKey.BeforeFirst(recordId, '-')) && r.date == Some(currentTime)
    ensures forall g :: FieldOf(r, g) == StampOf(s, g).OrElse(Lookup(current, g))
  {
    match current
    case Some(c) =>
      c.(morningArrival := s.morningArrival.OrElse(c.morningArrival),
         afternoonArrival := s.afternoonArrival.OrElse(c.afternoonArrival),
         morningDeparture := s.morningDeparture.OrElse(c.morningDeparture),
         afternoonDeparture := s.afternoonDeparture.OrElse(c.afternoonDeparture))
    case None =>
      DTRRecord(
        email := Some(DateKey.BeforeFirst(recordId, '-')),
        date := Some(currentTime),
        morningArrival := s.morningArrival,
        afternoonArrival := s.afternoonArrival,
        morningDeparture := s.morningDeparture,
        afternoonDeparture := s.afternoonDeparture)
  }

  /**
   * One clock event on a record that was read successfully: the stamped
   * field and the record to write, or `None` when nothing is written.
   * The written record differs from the one read in exactly the stamped
   * field, which was null before and now holds `currentTime`; every field
   * that was set keeps its value.
   */
  function ClockInOut(recordId: string, current: Option<DTRRecord>, currentTime: Timestamp, currentHour: int, insideGeofence: bool)
    : (r: Option<(Field, DTRRecord)>)
    ensures r.None? <==> forall f :: !Eligible(current, currentHour, insideGeofence, f)
    ensures r.Some? ==> Eligible(current, currentHour, insideGeofence, r.value.0)
    ensures r.Some? ==> FieldOf(r.value.1, r.value.0) == Some(currentTime)
    ensures r.Some? ==> forall g :: g != r.value.0 ==> FieldOf(r.value.1, g) == Lookup(current, g)
    ensures r.Some? && current.Some? ==>
      r.value.1.email == current.value.email && r.value.1.date == current.value.date
    ensures r.Some? && current.None? ==>
      r.value.1.email == Some(DateKey.BeforeFirst(recordId, '-')) && r.value.1.date == Some(currentTime)
  {
    match ChooseField(current, currentHour, insideGeofence)
    case None => None
    case Some(f) => Some((f, UpdatedRecord(recordId, current, currentTime, StampFor(f, currentTime))))
  }

  /** Departure set implies the same half-day's arrival is set, for both halves. */
  predicate Consistent(r: DTRRecord) {
    && (r.morningDeparture.Some? ==> r.morningArrival.Some?)
    && (r.afternoonDeparture.Some? ==> r.afternoonArrival.Some?)
  }

  /** No timestamp of the record is later than `t`. */
  predicate NoneAfter(r: Option<DTRRecord>, t: Timestamp) {
    forall f :: Lookup(r, f).Some? ==> Lookup(r, f).value <= t
  }

  /** Consistent, and each departure is no earlier than its arrival. */
  predicate Ordered(r: DTRRecord) {
    && Consistent(r)
    && (r.morningDeparture.Some? ==> r.morningArrival.value <= r.morningDeparture.value)
    && (r.afternoonDeparture.Some? ==> r.afternoonArrival.value <= r.afternoonDeparture.value)
  }

  // ---------------------------------------------------------------------------
  // Properties of one clock event
  // ---------------------------------------------------------------------------

  /** Inside before noon with no morning arrival: only the morning arrival changes. */
  lemma MorningArrivalStamped(recordId: string, current: Option<DTRRecord>, t: Timestamp, hour: int)
    requires hour < 12 && Lookup(current, MorningArrival).None?
    ensures ClockInOut(recordId, current, t, hour, true).Some?
    ensures var (f, rec) := ClockInOut(recordId, current, t, hour, true).value;
      f == MorningArrival && rec.morningArrival == Some(t)
      && rec.morningDeparture == Lookup(current, MorningDeparture)
      && rec.afternoonArrival == Lookup(current, AfternoonArrival)
      && rec.afternoonDeparture == Lookup(current, AfternoonDeparture)
  {
    assert Eligible(current, hour, true, MorningArrival);
  }

  /** Inside from noon on with no afternoon arrival: the afternoon arrival is stamped, whatever the morning holds. */
  lemma AfternoonArrivalStamped(recordId: string, current: Option<DTRRecord>, t: Timestamp, hour: int)
    requires hour >= 12 && Lookup(current, AfternoonArrival).None?
    ensures ClockInOut(recordId, current, t, hour, true).Some?
    ensures var (f, rec) := ClockInOut(recordId, current, t, hour, true).value;
      f == AfternoonArrival && rec.afternoonArrival == Some(t)
      && rec.morningArrival == Lookup(current, MorningArrival)
      && rec.morningDeparture == Lookup(current, MorningDeparture)
      && rec.afternoonDeparture == Lookup(current, AfternoonDeparture)
  {
    assert Eligible(current, hour, true, AfternoonArrival);
  }

  /**
   * A departure is stamped exactly when the user is outside, the half-day's
   * arrival is set and its departure is not.
   */
  lemma DepartureRule(recordId: string, current: Option<DTRRecord>, t: Timestamp, hour: int, inside: bool, f: Field)
    requires !f.IsArrival()
    ensures (ClockInOut(recordId, current, t, hour, inside).Some? && ClockInOut(recordId, current, t, hour, inside).value.0 == f)
      <==> (!inside && f.IsMorning() == (hour < 12) && Lookup(current, f.Arrival()).Some? && Lookup(current, f).None?)
  {
  }

  /** Nothing is read back from a missing record for a departure: outside with no record writes nothing. */
  lemma NoRecordNoDeparture(recordId: string, t: Timestamp, hour: int)
    ensures ClockInOut(recordId, None, t, hour, false).None?
  {
  }

  /** A new record is only ever created by an arrival, inside the geofence. */
  lemma NewRecordOnlyByArrival(recordId: string, t: Timestamp, hour: int, inside: bool)
    ensures ClockInOut(recordId, None, t, hour, inside).Some? ==>
      inside && ClockInOut(recordId, None, t, hour, inside).value.0.IsArrival()
  {
  }

  /**
   * A freshly created record carries the current time as its date, the
   * truncated email, and the stamped field is the only timestamp set.
   */
  lemma FreshRecordShape(recordId: string, t: Timestamp, hour: int, inside: bool)
    requires ClockInOut(recordId, None, t, hour, inside).Some?
    ensures var (f, rec) := ClockInOut(recordId, None, t, hour, inside).value;
      rec.date == Some(t) && rec.email == Some(DateKey.BeforeFirst(recordId, '-'))
      && forall g :: FieldOf(rec, g).Some? <==> g == f
  {
  }

  /** Repeating the same event (same hour and side of the fence) on the written record writes nothing. */
  lemma RepeatIsNoOp(recordId: string, current: Option<DTRRecord>, t: Timestamp, t': Timestamp, hour: int, inside: bool)
    requires ClockInOut(recordId, current, t, hour, inside).Some?
    ensures ClockInOut(recordId, Some(ClockInOut(recordId, current, t, hour, inside).value.1), t', hour, inside).None?
  {
    var (f, rec) := ClockInOut(recordId, current, t, hour, inside).value;
    forall g ensures !Eligible(Some(rec), hour, inside, g) {
      if g != f {
        assert FieldOf(rec, g) == Lookup(current, g) && !Eligible(current, hour, inside, g);
      }
    }
  }

  /** A morning event never touches the afternoon fields, and vice versa. */
  lemma HalfDayIndependence(recordId: string, current: Option<DTRRecord>, t: Timestamp, hour: int, inside: bool)
    requires ClockInOut(recordId, current, t, hour, inside).Some?
    ensures var rec := ClockInOut(recordId, current, t, hour, inside).value.1;
      forall g: Field :: g.IsMorning() != (hour < 12) ==> FieldOf(rec, g) == Lookup(current, g)
  {
  }

  /** The rule keeps every record consistent: a departure is never stamped before its arrival. */
  lemma PreservesConsistent(recordId: string, current: Option<DTRRecord>, t: Timestamp, hour: int, inside: bool)
    requires current.Some? ==> Consistent(current.value)
    requires ClockInOut(recordId, current, t, hour, inside).Some?
    ensures Consistent(ClockInOut(recordId, current, t, hour, inside).value.1)
  {
    var (f, rec) := ClockInOut(recordId, current, t, hour, inside).value;
    assert FieldOf(rec, MorningDeparture).Some? ==> FieldOf(rec, MorningArrival).Some?;
    assert FieldOf(rec, AfternoonDeparture).Some? ==> FieldOf(rec, AfternoonArrival).Some?;
  }

  /**
   * When the clock does not run backwards (no stored stamp is later than the
   * current time), each departure stays no earlier than its arrival.
   */
  lemma PreservesOrdered(recordId: string, current: Option<DTRRecord>, t: Timestamp, hour: int, inside: bool)
    requires current.Some? ==> Ordered(current.value)
    requires NoneAfter(current, t)
    requires ClockInOut(recordId, current, t, hour, inside).Some?
    ensures Ordered(ClockInOut(recordId, current, t, hour, inside).value.1)
  {
    var (f, rec) := ClockInOut(recordId, current, t, hour, inside).value;
    PreservesConsistent(recordId, current, t, hour, inside);
    assert Lookup(current, MorningArrival).Some? ==> Lookup(current, MorningArrival).value <= t;
    assert Lookup(current, AfternoonArrival).Some? ==> Lookup(current, AfternoonArrival).value <= t;
    assert FieldOf(rec, MorningArrival) == Lookup(current, MorningArrival) || f == MorningArrival;
    assert FieldOf(rec, AfternoonArrival) == Lookup(current, AfternoonArrival) || f == AfternoonArrival;
  }

  /**
   * First event of the day at 9:00 inside the fence creates the record with
   * only the morning arrival; a 13:00 event outside on that record, with no
   * afternoon arrival yet, writes nothing.
   */
  lemma ArrivalThenEarlyDeparture(t1: Timestamp, t2: Timestamp)
    ensures var id := DateKey.RecordId("a@x.com", 2024, 0, 15);
      var first := ClockInOut(id, None, t1, 9, true);
      && first.Some? && first.value.0 == MorningArrival
      && first.value.1 == DTRRecord(Some("a@x.com"), Some(t1), Some(t1), None, None, None)
      && ClockInOut(id, Some(first.value.1), t2, 13, false).None?
  {
    DateKey.EmailFromRecordId("a@x.com", 2024, 0, 15);
    var id := DateKey.RecordId("a@x.com", 2024, 0, 15);
    var first := ClockInOut(id, None, t1, 9, true);
    assert Eligible(None, 9, true, MorningArrival);
    assert first.value.1.email == Some("a@x.com");
  }

  // ---------------------------------------------------------------------------
  // The `dtr_records` table
  // ---------------------------------------------------------------------------

  /** What one call of `handleClockInOut` ends in. */
  datatype Outcome =
    | ReadFailed                              // the get() failure listener: "Error checking DTR record."
    | NoStamp                                 // no branch applies: nothing is written
    | Saved(field: Field, record: DTRRecord)  // set() succeeded: onTimeStamped() runs
    | SaveFailed(field: Field, record: DTRRecord)  // set() failed: "Failed to update DTR record."

  predicate AllConsistent(records: map<string, DTRRecord>) {
    forall id :: id in records ==> Consistent(records[id])
  }

  /** The `dtr_records` collection, as a map from document id to record. */
  class DTRStore {
    var records: map<string, DTRRecord>

    constructor (records: map<string, DTRRecord>)
      ensures this.records == records
    {
      this.records := records;
    }

    /**
     * `handleClockInOut`. The calendar date, whether the read and the write
     * reach the backend, and the current time and hour are inputs. The
     * record id is built from the email and the date; the table changes only
     * at that id, and only when a field is stamped and the write succeeds.
     */
    method HandleClockInOut(
      email: string, currentTime: Timestamp, currentHour: int, insideGeofence: bool,
      year: nat, calendarMonth: nat, dayOfMonth: nat,
      readSucceeds: bool, writeSucceeds: bool)
      returns (outcome: Outcome)
      modifies this
      ensures var recordId := DateKey.RecordId(email, year, calendarMonth, dayOfMonth);
        var current := if recordId in old(records) then Some(old(records)[recordId]) else None;
        var next := ClockInOut(recordId, current, currentTime, currentHour, insideGeofence);
        && (!readSucceeds ==> outcome == ReadFailed)
        && (readSucceeds && next.None? ==> outcome == NoStamp)
        && (readSucceeds && next.Some? && writeSucceeds ==> outcome == Saved(next.value.0, next.value.1))
        && (readSucceeds && next.Some? && !writeSucceeds ==> outcome == SaveFailed(next.value.0, next.value.1))
      ensures records == if outcome.Saved? then old(records)[DateKey.RecordId(email, year, calendarMonth, dayOfMonth) := outcome.record]
                         else old(records)
      ensures old(AllConsistent(records)) ==> AllConsistent(records)
    {
      var recordId := DateKey.RecordId(email, year, calendarMonth, dayOfMonth);
      if !readSucceeds {
        return ReadFailed;
      }
      var current := if recordId in records then Some(records[recordId]) else None;
      var next := ClockInOut(recordId, current, currentTime, currentHour, insideGeofence);
      if next.None? {
        return NoStamp;
      }
      var (field, record) := next.value;
      if !writeSucceeds {
        return SaveFailed(field, record);
      }
      if AllConsistent(records) {
        PreservesConsistent(recordId, current, currentTime, currentHour, insideGeofence);
      }
      records := records[recordId := record];
      outcome := Saved(field, record);
    }
  }
}
