/**
 * The record validator: one visit's vital signs, their fixed inclusive
 * ranges, the `YYYY-MM-DD` date check that inserting a visit makes, and the
 * abnormal readings that call for a follow-up.
 */
module Vitals {
  import opened Wrappers
  import opened Text
  import opened Numbers

  /** The six measured vital signs. */
  datatype Vital = Temperature | HeartRate | RespiratoryRate | SystolicBP | DiastolicBP | OxygenSaturation

  /** One visit, the list `[date, temp, hr, rr, sbp, dbp, spo2]` of the source. */
  datatype Visit = Visit(
    date: string,
    temperature: Float,
    heartRate: int,
    respiratoryRate: int,
    systolicBP: int,
    diastolicBP: int,
    oxygenSaturation: int)

  /** The inclusive valid range of each vital sign. */
  function Bounds(f: Vital): (int, int) {
    match f
    case Temperature => (35, 42)
    case HeartRate => (30, 180)
    case RespiratoryRate => (5, 40)
    case SystolicBP => (70, 200)
    case DiastolicBP => (40, 120)
    case OxygenSaturation => (70, 100)
  }

  /** The position of each check in the order the source makes them. */
  function Rank(f: Vital): nat {
    match f
    case Temperature => 0
    case HeartRate => 1
    case RespiratoryRate => 2
    case SystolicBP => 3
    case DiastolicBP => 4
    case OxygenSaturation => 5
  }

  /** The reading of `f` in `v` lies within `Bounds(f)`; the temperature is
      compared by value (see `Numbers.WithinValue`). */
  predicate InRange(v: Visit, f: Vital) {
    var lo := Bounds(f).0;
    var hi := Bounds(f).1;
    match f
    case Temperature => Within(v.temperature, lo, hi)
    case HeartRate => lo <= v.heartRate <= hi
    case RespiratoryRate => lo <= v.respiratoryRate <= hi
    case SystolicBP => lo <= v.systolicBP <= hi
    case DiastolicBP => lo <= v.diastolicBP <= hi
    case OxygenSaturation => lo <= v.oxygenSaturation <= hi
  }

  ghost predicate AllInRange(v: Visit) {
    forall f: Vital :: InRange(v, f)
  }

  /** The vital sign the source's chain of range checks stops at, if any:
      none exactly when every reading is in range, and otherwise one out of
      range with every earlier check passed. */
  function FirstOutOfRange(v: Visit): (r: Option<Vital>)
    ensures r.None? <==> AllInRange(v)
    ensures r.Some? ==> !InRange(v, r.value)
    ensures r.Some? ==> forall g: Vital :: Rank(g) < Rank(r.value) ==> InRange(v, g)
  {
    if !InRange(v, Temperature) then Some(Temperature)
    else if !InRange(v, HeartRate) then Some(HeartRate)
    else if !InRange(v, RespiratoryRate) then Some(RespiratoryRate)
    else if !InRange(v, SystolicBP) then Some(SystolicBP)
    else if !InRange(v, DiastolicBP) then Some(DiastolicBP)
    else if !InRange(v, OxygenSaturation) then Some(OxygenSaturation)
    else
      EveryVitalChecked(v);
      None
  }

  /** The six checks cover every vital sign. */
  lemma EveryVitalChecked(v: Visit)
    requires InRange(v, Temperature) && InRange(v, HeartRate) && InRange(v, RespiratoryRate)
    requires InRange(v, SystolicBP) && InRange(v, DiastolicBP) && InRange(v, OxygenSaturation)
    ensures AllInRange(v)
  {
    forall f: Vital ensures InRange(v, f) {
      match f
      case Temperature =>
      case HeartRate =>
      case RespiratoryRate =>
      case SystolicBP =>
      case DiastolicBP =>
      case OxygenSaturation =>
    }
  }

  /** A visit the store can hold and write back: every reading in range and
      a date without the field separator. */
  ghost predicate Storable(v: Visit) {
    AllInRange(v) && ',' !in v.date
  }

  /** `year, month, day = map(int, date.split('-'))`, or nothing when the
      date does not split into exactly three integers. A date that parses has
      three parts and holds no comma, so it can stand as one field of a line. */
  function ParseDate(date: string): (r: Option<(int, int, int)>)
    ensures r.Some? ==> |Split(date, '-')| == 3 && ',' !in date
  {
    var parts := Split(date, '-');
    if |parts| != 3 then None
    else
      var y, m, d := ParseInt(parts[0]), ParseInt(parts[1]), ParseInt(parts[2]);
      if y.Some? && m.Some? && d.Some? then
        assert ',' !in date by {
          forall i | 0 <= i < 3 ensures ',' !in parts[i] {
            ParsedIntAvoids(parts[i], ',');
          }
          JoinSplit(date, '-');
          JoinAvoids(parts, '-', ',');
        }
        Some((y.value, m.value, d.value))
      else None
  }

  /** Month 1-12, day 1-31 and year from 1900, with no calendar check. */
  predicate DateInRange(year: int, month: int, day: int) {
    1 <= month <= 12 && 1 <= day <= 31 && year >= 1900
  }

  /** Why a new visit is refused, in the order the source checks. */
  datatype Rejection = BadDateFormat | BadDate | OutOfRange(vital: Vital)

  /**
   * The checks made before a visit is added: the date's shape, then its
   * range, then each vital sign in turn. A visit is accepted exactly when
   * all of them pass, and it is then storable; each refusal names the first
   * check that failed.
   */
  function ValidateVisit(date: string, temperature: Float, heartRate: int, respiratoryRate: int,
                         systolicBP: int, diastolicBP: int, oxygenSaturation: int): (r: Result<Visit, Rejection>)
    ensures var v := Visit(date, temperature, heartRate, respiratoryRate, systolicBP, diastolicBP, oxygenSaturation);
      && (r.Success? <==> ParseDate(date).Some? && DateInRange(ParseDate(date).value.0, ParseDate(date).value.1, ParseDate(date).value.2) && AllInRange(v))
      && (r.Success? ==> r.value == v && Storable(r.value))
      && (r == Failure(BadDateFormat) <==> ParseDate(date).None?)
      && (r == Failure(BadDate) <==> ParseDate(date).Some? && !DateInRange(ParseDate(date).value.0, ParseDate(date).value.1, ParseDate(date).value.2))
      && (r.Failure? && r.error.OutOfRange? ==> Some(r.error.vital) == FirstOutOfRange(v))
  {
    var v := Visit(date, temperature, heartRate, respiratoryRate, systolicBP, diastolicBP, oxygenSaturation);
    match ParseDate(date)
    case None => Failure(BadDateFormat)
    case Some((y, m, d)) =>
      if !DateInRange(y, m, d) then Failure(BadDate)
      else
        match FirstOutOfRange(v)
        case Some(f) => Failure(OutOfRange(f))
        case None => Success(v)
  }

  /** A reading that calls for a follow-up visit. */
  predicate Abnormal(v: Visit) {
    v.heartRate > 100 || v.heartRate < 60 || v.systolicBP > 140 || v.diastolicBP > 90 || v.oxygenSaturation < 90
  }
}
