/**
 * The text store codec: one line of the record file is
 * `patientId,date,temperature,heartRate,respiratoryRate,systolicBP,diastolicBP,oxygenSaturation`.
 * Decoding is the per-line work of loading the file; encoding is the line
 * written when a visit is added and when the whole file is rewritten.
 */
module Codec {
  import opened Wrappers
  import opened Text
  import opened Numbers
  import opened Vitals

  /** Why a line is skipped while loading. */
  datatype LineError = FieldCount(count: nat) | BadNumber | OutOfRange(vital: Vital)

  /** The numeric fields of an eight-field line, when all of them parse. */
  function ParseFields(fields: seq<string>): (r: Option<(int, Visit)>)
    requires |fields| == 8
    ensures r.Some? ==> r.value.1.date == fields[1]
  {
    var pid := ParseInt(fields[0]);
    var temperature := ParseFloat(fields[2]);
    var hr := ParseInt(fields[3]);
    var rr := ParseInt(fields[4]);
    var sbp := ParseInt(fields[5]);
    var dbp := ParseInt(fields[6]);
    var spo2 := ParseInt(fields[7]);
    if pid.Some? && temperature.Some? && hr.Some? && rr.Some? && sbp.Some? && dbp.Some? && spo2.Some? then
      Some((pid.value, Visit(fields[1], temperature.value, hr.value, rr.value, sbp.value, dbp.value, spo2.value)))
    else None
  }

  /**
   * One line of the file: stripped, split on commas, eight fields required,
   * the seven numeric ones parsed, then the range checks in order. A line is
   * accepted exactly when it has eight fields, all seven numbers parse and
   * every reading is in range; what is accepted is the parsed visit, and it is
   * storable; a line is refused for its field count exactly when it
   * does not have eight fields.
   */
  function DecodeLine(line: string): (r: Result<(int, Visit), LineError>)
    ensures var fields := Split(Strip(line, AnySpace), ',');
      r.Success? <==> |fields| == 8 && ParseFields(fields).Some? && AllInRange(ParseFields(fields).value.1)
    ensures var fields := Split(Strip(line, AnySpace), ',');
      r.Success? ==> |fields| == 8 && Some(r.value) == ParseFields(fields) && Storable(r.value.1)
    ensures r.Failure? && r.error.FieldCount? <==> |Split(Strip(line, AnySpace), ',')| != 8
    ensures var fields := Split(Strip(line, AnySpace), ',');
      r == Failure(BadNumber) <==> |fields| == 8 && ParseFields(fields).None?
    ensures r.Failure? && r.error.OutOfRange? ==>
      exists pid, v :: ParseFields(Split(Strip(line, AnySpace), ',')) == Some((pid, v)) && FirstOutOfRange(v) == Some(r.error.vital)
  {
    var fields := Split(Strip(line, AnySpace), ',');
    if |fields| != 8 then Failure(FieldCount(|fields|))
    else
      match ParseFields(fields)
      case None => Failure(BadNumber)
      case Some((pid, v)) =>
        match FirstOutOfRange(v)
        case Some(f) => Failure(LineError.OutOfRange(f))
        case None =>
          assert ',' !in fields[1];
          Success((pid, v))
  }

  /** The eight fields of a line, each as the source's f-string writes it. */
  function Fields(pid: int, v: Visit): seq<string> {
    [IntStr(pid), v.date, FloatStr(v.temperature), IntStr(v.heartRate), IntStr(v.respiratoryRate),
     IntStr(v.systolicBP), IntStr(v.diastolicBP), IntStr(v.oxygenSaturation)]
  }

  /** `f"{pid},{date},{temp},{hr},{rr},{sbp},{dbp},{spo2}"`, without the
      newline. When the date holds no comma the line splits back into its
      eight fields. */
  function EncodeLine(pid: int, v: Visit): (line: string)
    ensures ',' !in v.date ==> Split(line, ',') == Fields(pid, v)
  {
    assert ',' !in v.date ==> Split(Join(Fields(pid, v), ','), ',') == Fields(pid, v) by {
      if ',' !in v.date {
        FieldsAvoidComma(pid, v);
        SplitJoin(Fields(pid, v), ',');
      }
    }
    Join(Fields(pid, v), ',')
  }

  /** A join ends with the last character of its last piece. */
  lemma {:induction false} JoinEnds(parts: seq<string>, sep: char)
    requires |parts| >= 1 && |parts[|parts| - 1]| > 0
    ensures var s := Join(parts, sep);
      |s| > 0 && s[|s| - 1] == parts[|parts| - 1][|parts[|parts| - 1]| - 1]
    decreases |parts|
  {
    if |parts| > 1 {
      JoinEnds(parts[1..], sep);
    }
  }

  /** No field of an encoded visit holds the separator. */
  lemma FieldsAvoidComma(pid: int, v: Visit)
    requires ',' !in v.date
    ensures forall i :: 0 <= i < 8 ==> ',' !in Fields(pid, v)[i]
  {
    var fs := Fields(pid, v);
    forall i | 0 <= i < 8 ensures ',' !in fs[i] {
      if i != 1 {
        NumberTextAvoids(fs[i], ',');
      }
    }
  }

  /** Decoding the line written for a storable visit gives back the patient and the visit. */
  lemma DecodeEncode(pid: int, v: Visit)
    requires Storable(v)
    ensures DecodeLine(EncodeLine(pid, v)) == Success((pid, v))
  {
    var fs := Fields(pid, v);
    var line := EncodeLine(pid, v);
    JoinEnds(fs, ',');
    assert line[0] == fs[0][0];
    assert Strip(line, AnySpace) == line;
    FieldsAvoidComma(pid, v);
    SplitJoin(fs, ',');
    IntRoundTrip(pid);
    FloatRoundTrip(v.temperature);
    IntRoundTrip(v.heartRate);
    IntRoundTrip(v.respiratoryRate);
    IntRoundTrip(v.systolicBP);
    IntRoundTrip(v.diastolicBP);
    IntRoundTrip(v.oxygenSaturation);
    assert ParseFields(fs) == Some((pid, v));
  }
}
