/**
 * The program's mutable state: the patient dictionary as an object whose
 * fields the operations update in place, and the three operations that
 * change it together with the file behind it (read at start-up, one line
 * appended per added visit, rewritten after a deletion). The file is its
 * list of lines, passed in and handed back.
 */
module Registry {
  import opened Wrappers
  import opened Numbers
  import opened Vitals
  import opened Codec
  import opened Store

  class PatientTable {
    var keys: seq<int>
    var visits: map<int, seq<Visit>>

    /** The dictionary the fields hold. */
    function Contents(): Patients
      reads this
    {
      Patients(keys, visits)
    }

    /** What loading and adding keep: the dictionary is one that `Stored` describes. */
    ghost predicate Valid()
      reads this
    {
      Stored(Contents())
    }

    /** `patients = {}`. */
    constructor ()
      ensures Valid() && Contents() == Empty()
    {
      keys := [];
      visits := map[];
    }

    /** Recording one visit: appended to a known patient's list, or a new list for a new patient. */
    method Append(pid: int, v: Visit)
      modifies this
      ensures Contents() == Insert(old(Contents()), pid, v)
      ensures old(Valid()) && Storable(v) ==> Valid()
    {
      if pid in visits {
        visits := visits[pid := visits[pid] + [v]];
      } else {
        keys := keys + [pid];
        visits := visits[pid := [v]];
      }
    }

    /** `del patients[pid]` when the patient is present; nothing otherwise. */
    method Delete(pid: int)
      requires Valid()
      modifies this
      ensures Valid() && Contents() == Remove(old(Contents()), pid)
    {
      if pid in visits {
        keys := RemoveKey(keys, pid);
        visits := visits - {pid};
      }
    }
  }

  /** `readPatientsFromFile`: every line decoded in turn, the accepted ones recorded. */
  method ReadPatientsFromFile(lines: seq<string>) returns (t: PatientTable)
    ensures fresh(t) && t.Valid() && t.Contents() == Load(lines)
  {
    t := new PatientTable();
    var i := 0;
    while i < |lines|
      invariant 0 <= i <= |lines|
      invariant t.Valid() && t.Contents() == Load(lines[..i])
    {
      var decoded := DecodeLine(lines[i]);
      LoadNext(lines, i);
      if decoded.Success? {
        t.Append(decoded.value.0, decoded.value.1);
      }
      i := i + 1;
    }
    assert lines[..i] == lines;
  }

  /**
   * `addPatientData`: the date and the readings are checked in the
   * program's order; a rejected visit changes nothing, an accepted one is
   * recorded and its line appended to the file. A table that agreed with
   * its file still agrees with it afterwards.
   */
  method AddPatientData(t: PatientTable, pid: int, date: string, temp: Float, hr: int, rr: int,
                        sbp: int, dbp: int, spo2: int, file: seq<string>)
    returns (r: Result<Visit, Rejection>, newFile: seq<string>)
    requires t.Valid()
    modifies t
    ensures r == ValidateVisit(date, temp, hr, rr, sbp, dbp, spo2)
    ensures r.Failure? ==> unchanged(t) && newFile == file
    ensures r.Success? ==> newFile == file + [EncodeLine(pid, r.value)] && t.Contents() == Insert(old(t.Contents()), pid, r.value)
    ensures t.Valid()
    ensures old(t.Contents()) == Load(file) ==> t.Contents() == Load(newFile)
  {
    r := ValidateVisit(date, temp, hr, rr, sbp, dbp, spo2);
    if r.Failure? {
      return r, file;
    }
    t.Append(pid, r.value);
    newFile := file + [EncodeLine(pid, r.value)];
    AppendPersists(file, pid, r.value);
  }

  /** The loop that writes every visit of every patient, one line each, in dictionary order. */
  method WriteAll(p: Patients) returns (lines: seq<string>)
    ensures lines == Lines(p)
  {
    lines := [];
    var i := 0;
    while i < |p.keys|
      invariant 0 <= i <= |p.keys|
      invariant lines == LinesOf(p.keys[..i], p)
    {
      var pid := p.keys[i];
      var visits := VisitsOf(p, pid);
      ghost var written := lines;
      var j := 0;
      while j < |visits|
        invariant 0 <= j <= |visits|
        invariant lines == written + PatientLines(pid, visits[..j])
      {
        var line := EncodeLine(pid, visits[j]);
        PatientLinesStep(pid, visits, j);
        AppendAssoc(written, PatientLines(pid, visits[..j]), [line]);
        lines := lines + [line];
        j := j + 1;
      }
      assert visits[..j] == visits;
      LinesOfSnoc(p.keys, i, p);
      i := i + 1;
    }
    assert p.keys[..i] == p.keys;
  }

  /**
   * `deleteAllVisitsOfPatient`: the patient is dropped when present and the
   * file is rewritten from what remains; no line of the new file is for that
   * patient, and reading it back gives the table.
   */
  method DeleteAllVisitsOfPatient(t: PatientTable, pid: int) returns (file: seq<string>)
    requires t.Valid()
    modifies t
    ensures t.Valid() && t.Contents() == Remove(old(t.Contents()), pid)
    ensures file == Lines(t.Contents()) && Load(file) == t.Contents()
    ensures forall line :: line in file ==> DecodeLine(line).Success? && DecodeLine(line).value.0 != pid
  {
    ghost var before := t.Contents();
    t.Delete(pid);
    file := WriteAll(t.Contents());
    DeleteRewrite(before, pid);
  }
}
