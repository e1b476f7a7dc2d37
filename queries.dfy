/**
 * The two read-only queries over the dictionary: visits by year and month,
 * and the patients who need a follow-up visit. Each is a specification
 * function, the loop the program runs as a method proved equal to it, and
 * lemmas saying what the specification means.
 */
module Queries {
  import opened Wrappers
  import opened Text
  import opened Vitals
  import opened Store

  /** Python truthiness of an optional integer argument: absent and 0 both count as not given. */
  predicate Given(o: Option<int>) {
    o.Some? && o.value != 0
  }

  /** A date that splits into three parts which are not all integers: `map(int, ...)` raises on it. */
  predicate DateFails(v: Visit) {
    |Split(v.date, '-')| == 3 && ParseDate(v.date).None?
  }

  /** A visit the filter keeps: its date parses and agrees with each filter that is given. */
  predicate Matches(v: Visit, year: Option<int>, month: Option<int>) {
    ParseDate(v.date).Some? &&
    (!Given(year) || year.value == ParseDate(v.date).value.0) &&
    (!Given(month) || month.value == ParseDate(v.date).value.1)
  }

  /** A match, or the visit whose date raised, which ends the search. */
  type Search = Result<seq<(int, Visit)>, (int, Visit)>

  /** The inner loop over one patient's visits. */
  function ScanVisits(pid: int, vs: seq<Visit>, year: Option<int>, month: Option<int>): Search {
    if vs == [] then Success([])
    else
      match ScanVisits(pid, vs[..|vs| - 1], year, month)
      case Failure(e) => Failure(e)
      case Success(found) =>
        var v := vs[|vs| - 1];
        if DateFails(v) then Failure((pid, v))
        else if Matches(v, year, month) then Success(found + [(pid, v)])
        else Success(found)
  }

  /** The outer loop over the patients, in dictionary order. */
  function ScanKeys(keys: seq<int>, p: Patients, year: Option<int>, month: Option<int>): Search {
    if keys == [] then Success([])
    else
      match ScanKeys(keys[..|keys| - 1], p, year, month)
      case Failure(e) => Failure(e)
      case Success(found) =>
        var k := keys[|keys| - 1];
        match ScanVisits(k, VisitsOf(p, k), year, month)
        case Failure(e) => Failure(e)
        case Success(more) => Success(found + more)
  }

  /**
   * `findVisitsByDate`: a month without a year, or a month outside 1-12,
   * finds nothing; otherwise every visit is scanned.
   */
  function VisitsByDate(p: Patients, year: Option<int>, month: Option<int>): Search {
    if Given(month) && !Given(year) then Success([])
    else if Given(month) && (month.value < 1 || month.value > 12) then Success([])
    else ScanKeys(p.keys, p, year, month)
  }

  /** The scan of one patient succeeds exactly when none of the patient's dates raises. */
  lemma {:induction false} ScanVisitsSucceeds(pid: int, vs: seq<Visit>, year: Option<int>, month: Option<int>)
    ensures ScanVisits(pid, vs, year, month).Success? <==> forall v :: v in vs ==> !DateFails(v)
  {
    if vs != [] {
      var front := vs[..|vs| - 1];
      assert vs == front + [vs[|vs| - 1]];
      ScanVisitsSucceeds(pid, front, year, month);
    }
  }

  /** A successful scan of one patient finds exactly the patient's matching visits. */
  lemma {:induction false} ScanVisitsFinds(pid: int, vs: seq<Visit>, year: Option<int>, month: Option<int>)
    requires ScanVisits(pid, vs, year, month).Success?
    ensures forall e :: e in ScanVisits(pid, vs, year, month).value <==> e.0 == pid && e.1 in vs && Matches(e.1, year, month)
  {
    if vs != [] {
      var front := vs[..|vs| - 1];
      var v := vs[|vs| - 1];
      var found := ScanVisits(pid, vs, year, month).value;
      var earlier := ScanVisits(pid, front, year, month).value;
      assert vs == front + [v];
      ScanVisitsFinds(pid, front, year, month);
      if Matches(v, year, month) {
        assert found == earlier + [(pid, v)];
      } else {
        assert found == earlier;
      }
      forall e: (int, Visit)
        ensures e in found <==> e.0 == pid && e.1 in vs && Matches(e.1, year, month)
      {
        assert e.1 in vs <==> e.1 in front || e.1 == v;
      }
    }
  }

  /** A failed scan of one patient reports a visit whose date raises after the earlier ones scanned cleanly. */
  lemma {:induction false} ScanVisitsStopsAt(pid: int, vs: seq<Visit>, year: Option<int>, month: Option<int>)
    requires ScanVisits(pid, vs, year, month).Failure?
    ensures exists i :: 0 <= i < |vs| && ScanVisits(pid, vs, year, month).error == (pid, vs[i]) && DateFails(vs[i]) &&
                        ScanVisits(pid, vs[..i], year, month).Success?
  {
    var front := vs[..|vs| - 1];
    if ScanVisits(pid, front, year, month).Failure? {
      ScanVisitsStopsAt(pid, front, year, month);
      var i :| 0 <= i < |front| && ScanVisits(pid, front, year, month).error == (pid, front[i]) && DateFails(front[i]) &&
               ScanVisits(pid, front[..i], year, month).Success?;
      assert vs[i] == front[i] && vs[..i] == front[..i];
    } else {
      assert vs[..|vs| - 1] == front;
    }
  }

  /** A failed scan of one patient stops at the first visit whose date raises. */
  lemma ScanVisitsStops(pid: int, vs: seq<Visit>, year: Option<int>, month: Option<int>)
    requires ScanVisits(pid, vs, year, month).Failure?
    ensures exists i :: 0 <= i < |vs| && ScanVisits(pid, vs, year, month).error == (pid, vs[i]) && DateFails(vs[i]) &&
                        forall j :: 0 <= j < i ==> !DateFails(vs[j])
  {
    ScanVisitsStopsAt(pid, vs, year, month);
    var i :| 0 <= i < |vs| && ScanVisits(pid, vs, year, month).error == (pid, vs[i]) && DateFails(vs[i]) &&
             ScanVisits(pid, vs[..i], year, month).Success?;
    ScanVisitsSucceeds(pid, vs[..i], year, month);
    assert forall j :: 0 <= j < i ==> vs[j] in vs[..i];
  }

  /**
   * The scan of the patients succeeds exactly when no recorded date raises;
   * it then finds exactly the matching visits of the listed patients, and
   * otherwise reports a recorded visit whose date raises.
   */
  lemma {:induction false} ScanKeysMeaning(keys: seq<int>, p: Patients, year: Option<int>, month: Option<int>)
    ensures var r := ScanKeys(keys, p, year, month);
      (r.Success? <==> forall k, v :: k in keys && v in VisitsOf(p, k) ==> !DateFails(v)) &&
      (r.Success? ==> forall e :: e in r.value <==> e.0 in keys && e.1 in VisitsOf(p, e.0) && Matches(e.1, year, month)) &&
      (r.Failure? ==> r.error.0 in keys && r.error.1 in VisitsOf(p, r.error.0) && DateFails(r.error.1))
  {
    if keys != [] {
      var front := keys[..|keys| - 1];
      var k := keys[|keys| - 1];
      assert keys == front + [k];
      ScanKeysMeaning(front, p, year, month);
      ScanVisitsSucceeds(k, VisitsOf(p, k), year, month);
      if ScanVisits(k, VisitsOf(p, k), year, month).Success? {
        ScanVisitsFinds(k, VisitsOf(p, k), year, month);
      } else {
        ScanVisitsStops(k, VisitsOf(p, k), year, month);
      }
    }
  }

  /**
   * What `findVisitsByDate` finds when its guards pass: exactly the
   * recorded visits whose dates match, unless some recorded date splits
   * into three parts that are not all integers, in which case it raises.
   */
  lemma VisitsByDateMeaning(p: Patients, year: Option<int>, month: Option<int>)
    requires WellFormed(p)
    ensures Given(month) && (!Given(year) || month.value < 1 || month.value > 12) ==>
      VisitsByDate(p, year, month) == Success([])
    ensures !Given(month) || (Given(year) && 1 <= month.value <= 12) ==>
      var r := VisitsByDate(p, year, month);
      (r.Success? <==> forall k, v :: k in p.visits && v in p.visits[k] ==> !DateFails(v)) &&
      (r.Success? ==> forall pid, v :: (pid, v) in r.value <==> pid in p.visits && v in p.visits[pid] && Matches(v, year, month)) &&
      (r.Failure? ==> r.error.0 in p.visits && r.error.1 in p.visits[r.error.0] && DateFails(r.error.1))
  {
    if !Given(month) || (Given(year) && 1 <= month.value <= 12) {
      var r := ScanKeys(p.keys, p, year, month);
      assert VisitsByDate(p, year, month) == r;
      ScanKeysMeaning(p.keys, p, year, month);
      assert forall k :: k in p.keys <==> k in p.visits;
      assert forall k :: k in p.visits ==> VisitsOf(p, k) == p.visits[k];
    }
  }

  /** A failed scan stays failed, with the same visit, when more patients or visits follow. */
  lemma {:induction false} ScanVisitsFailureStays(pid: int, vs: seq<Visit>, n: nat, year: Option<int>, month: Option<int>)
    requires n <= |vs| && ScanVisits(pid, vs[..n], year, month).Failure?
    ensures ScanVisits(pid, vs, year, month) == ScanVisits(pid, vs[..n], year, month)
    decreases |vs| - n
  {
    if n < |vs| {
      assert vs[..n + 1][..n] == vs[..n];
      ScanVisitsFailureStays(pid, vs, n + 1, year, month);
    } else {
      assert vs[..n] == vs;
    }
  }

  lemma {:induction false} ScanKeysFailureStays(keys: seq<int>, n: nat, p: Patients, year: Option<int>, month: Option<int>)
    requires n <= |keys| && ScanKeys(keys[..n], p, year, month).Failure?
    ensures ScanKeys(keys, p, year, month) == ScanKeys(keys[..n], p, year, month)
    decreases |keys| - n
  {
    if n < |keys| {
      assert keys[..n + 1][..n] == keys[..n];
      ScanKeysFailureStays(keys, n + 1, p, year, month);
    } else {
      assert keys[..n] == keys;
    }
  }

  /** One more visit of a patient whose earlier visits scanned without error. */
  lemma ScanVisitsStep(pid: int, vs: seq<Visit>, j: nat, year: Option<int>, month: Option<int>)
    requires j < |vs| && ScanVisits(pid, vs[..j], year, month).Success?
    ensures var found := ScanVisits(pid, vs[..j], year, month).value;
      ScanVisits(pid, vs[..j + 1], year, month) ==
        if DateFails(vs[j]) then Failure((pid, vs[j]))
        else if Matches(vs[j], year, month) then Success(found + [(pid, vs[j])])
        else Success(found)
  {
    assert vs[..j + 1][..j] == vs[..j];
  }

  /** The same step, stated with the values the loop body computes. */
  lemma ScanVisitsNext(pid: int, vs: seq<Visit>, j: nat, year: Option<int>, month: Option<int>)
    requires j < |vs| && ScanVisits(pid, vs[..j], year, month).Success?
    ensures var found := ScanVisits(pid, vs[..j], year, month).value;
      var date := ParseDate(vs[j].date);
      ScanVisits(pid, vs[..j + 1], year, month) ==
        if |Split(vs[j].date, '-')| != 3 then Success(found)
        else if date.None? then Failure((pid, vs[j]))
        else if !(Given(year) && year.value != date.value.0) && !(Given(month) && month.value != date.value.1)
        then Success(found + [(pid, vs[j])])
        else Success(found)
  {
    ScanVisitsStep(pid, vs, j, year, month);
  }

  /** One more patient after earlier patients scanned without error. */
  lemma ScanKeysStep(keys: seq<int>, i: nat, p: Patients, year: Option<int>, month: Option<int>)
    requires i < |keys| && ScanKeys(keys[..i], p, year, month).Success?
    ensures var found := ScanKeys(keys[..i], p, year, month).value;
      var more := ScanVisits(keys[i], VisitsOf(p, keys[i]), year, month);
      ScanKeys(keys[..i + 1], p, year, month) ==
        if more.Failure? then Failure(more.error) else Success(found + more.value)
  {
    assert keys[..i + 1][..i] == keys[..i];
  }

  /** The inner loop of `findVisitsByDate`: one patient's visits, appended to `result` as they match. */
  method ScanPatient(pid: int, visits: seq<Visit>, year: Option<int>, month: Option<int>, result: seq<(int, Visit)>)
    returns (r: Search)
    ensures var scan := ScanVisits(pid, visits, year, month);
      r == if scan.Failure? then Failure(scan.error) else Success(result + scan.value)
  {
    var found := result;
    var j := 0;
    while j < |visits|
      invariant 0 <= j <= |visits|
      invariant ScanVisits(pid, visits[..j], year, month).Success?
      invariant found == result + ScanVisits(pid, visits[..j], year, month).value
    {
      var visit := visits[j];
      ScanVisitsNext(pid, visits, j, year, month);
      ghost var earlier := ScanVisits(pid, visits[..j], year, month).value;
      var dateInfo := Split(visit.date, '-');
      if |dateInfo| == 3 {
        var date := ParseDate(visit.date);
        if date.None? {
          ScanVisitsFailureStays(pid, visits, j + 1, year, month);
          return Failure((pid, visit));
        }
        var (visitYear, visitMonth, _) := date.value;
        if !(Given(year) && year.value != visitYear) && !(Given(month) && month.value != visitMonth) {
          AppendAssoc(result, earlier, [(pid, visit)]);
          found := found + [(pid, visit)];
        }
      }
      j := j + 1;
    }
    assert visits[..j] == visits;
    r := Success(found);
  }

  /** `findVisitsByDate` as the program runs it: the two guards, then the loop over the patients. */
  method FindVisitsByDate(p: Patients, year: Option<int>, month: Option<int>) returns (r: Search)
    ensures r == VisitsByDate(p, year, month)
  {
    if Given(month) && !Given(year) {
      return Success([]);
    }
    if Given(month) && (month.value < 1 || month.value > 12) {
      return Success([]);
    }
    assert VisitsByDate(p, year, month) == ScanKeys(p.keys, p, year, month);
    var result: seq<(int, Visit)> := [];
    var i := 0;
    while i < |p.keys|
      invariant 0 <= i <= |p.keys|
      invariant ScanKeys(p.keys[..i], p, year, month) == Success(result)
    {
      var pid := p.keys[i];
      var scanned := ScanPatient(pid, VisitsOf(p, pid), year, month, result);
      assert ScanKeys(p.keys[..i + 1], p, year, month) == scanned by {
        ScanKeysStep(p.keys, i, p, year, month);
      }
      if scanned.Failure? {
        assert ScanKeys(p.keys, p, year, month) == scanned by {
          ScanKeysFailureStays(p.keys, i + 1, p, year, month);
        }
        return scanned;
      }
      result := scanned.value;
      i := i + 1;
    }
    assert ScanKeys(p.keys, p, year, month) == Success(result) by {
      assert p.keys[..i] == p.keys;
    }
    r := Success(result);
  }

  // ---------------------------------------------------------------------------
  // Follow-up.

  /** Some visit of the list has an abnormal reading. */
  predicate AnyAbnormal(vs: seq<Visit>) {
    exists v :: v in vs && Abnormal(v)
  }

  /** The patients among `keys` with an abnormal visit, in the order of `keys`. */
  function FollowUp(keys: seq<int>, p: Patients): seq<int> {
    if keys == [] then []
    else
      var k := keys[|keys| - 1];
      FollowUp(keys[..|keys| - 1], p) + (if AnyAbnormal(VisitsOf(p, k)) then [k] else [])
  }

  /** A patient is listed exactly when one of the patient's visits is abnormal. */
  lemma {:induction false} FollowUpMeaning(keys: seq<int>, p: Patients)
    ensures forall k :: k in FollowUp(keys, p) <==> k in keys && exists v :: v in VisitsOf(p, k) && Abnormal(v)
  {
    if keys != [] {
      FollowUpMeaning(keys[..|keys| - 1], p);
      assert keys == keys[..|keys| - 1] + [keys[|keys| - 1]];
    }
  }

  /** No patient is listed twice when the keys are distinct. */
  lemma {:induction false} FollowUpDistinct(keys: seq<int>, p: Patients)
    requires Distinct(keys)
    ensures Distinct(FollowUp(keys, p))
  {
    if keys != [] {
      var front := keys[..|keys| - 1];
      var k := keys[|keys| - 1];
      FollowUpDistinct(front, p);
      FollowUpMeaning(front, p);
      assert k !in front;
    }
  }

  /** `findPatientsWhoNeedFollowUp`: the outer loop over patients, the inner one stopping at the first abnormal visit. */
  method FindPatientsWhoNeedFollowUp(p: Patients) returns (ids: seq<int>)
    ensures ids == FollowUp(p.keys, p)
  {
    ids := [];
    var i := 0;
    while i < |p.keys|
      invariant 0 <= i <= |p.keys|
      invariant ids == FollowUp(p.keys[..i], p)
    {
      var pid := p.keys[i];
      var visits := VisitsOf(p, pid);
      assert p.keys[..i + 1][..i] == p.keys[..i];
      var j := 0;
      var found := false;
      while j < |visits|
        invariant 0 <= j <= |visits|
        invariant !found ==> forall m :: 0 <= m < j ==> !Abnormal(visits[m])
        invariant found ==> AnyAbnormal(visits)
        invariant found ==> ids == FollowUp(p.keys[..i], p) + [pid]
        invariant !found ==> ids == FollowUp(p.keys[..i], p)
      {
        if Abnormal(visits[j]) {
          ids := ids + [pid];
          found := true;
          break;
        }
        j := j + 1;
      }
      i := i + 1;
    }
    assert p.keys[..i] == p.keys;
  }
}
