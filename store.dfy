/**
 * The in-memory patient dictionary and what the file does to it: loading a
 * file line by line, appending one visit, and rewriting the whole file.
 * Python's dict keeps insertion order, so a dictionary is its keys in order
 * together with a map from each key to that patient's visits.
 */
module Store {
  import opened Wrappers
  import opened Vitals
  import opened Codec

  datatype Patients = Patients(keys: seq<int>, visits: map<int, seq<Visit>>)

  /** The visits recorded for `k`, none when `k` is not a key. */
  function VisitsOf(p: Patients, k: int): seq<Visit> {
    if k in p.visits then p.visits[k] else []
  }

  ghost predicate Distinct(keys: seq<int>) {
    forall i, j :: 0 <= i < j < |keys| ==> keys[i] != keys[j]
  }

  /** The key order lists every key of the map once. */
  ghost predicate WellFormed(p: Patients) {
    Distinct(p.keys) && forall k :: k in p.keys <==> k in p.visits
  }

  /** What loading and adding can build: every patient has visits, and each passed the checks. */
  ghost predicate Stored(p: Patients) {
    WellFormed(p) &&
    forall k :: k in p.visits ==> |p.visits[k]| > 0 && forall v :: v in p.visits[k] ==> Storable(v)
  }

  function Empty(): (p: Patients)
    ensures Stored(p) && p.keys == [] && forall k :: VisitsOf(p, k) == []
  {
    Patients([], map[])
  }

  /**
   * `patients.setdefault(pid, []).append(v)`: a new patient goes to the end
   * of the key order, a known one keeps its place, and no other patient changes.
   */
  function Insert(p: Patients, pid: int, v: Visit): (r: Patients)
    ensures VisitsOf(r, pid) == VisitsOf(p, pid) + [v]
    ensures forall k :: k != pid ==> VisitsOf(r, k) == VisitsOf(p, k) && (k in r.visits <==> k in p.visits)
    ensures pid in r.visits
    ensures r.keys == if pid in p.visits then p.keys else p.keys + [pid]
    ensures WellFormed(p) ==> WellFormed(r)
    ensures Stored(p) && Storable(v) ==> Stored(r)
  {
    if pid in p.visits then Patients(p.keys, p.visits[pid := p.visits[pid] + [v]])
    else Patients(p.keys + [pid], p.visits[pid := [v]])
  }

  /** The key order with `pid` taken out and the rest in their old order. */
  function RemoveKey(keys: seq<int>, pid: int): (r: seq<int>)
    ensures forall k :: k in r <==> k in keys && k != pid
    ensures |r| <= |keys|
    ensures pid !in keys ==> r == keys
    ensures Distinct(keys) ==> Distinct(r)
  {
    if keys == [] then []
    else
      var rest := RemoveKey(keys[..|keys| - 1], pid);
      if keys[|keys| - 1] == pid then rest
      else
        assert Distinct(keys) ==> keys[|keys| - 1] !in keys[..|keys| - 1];
        rest + [keys[|keys| - 1]]
  }

  /** Removing a key that occurs only at position `i` cuts out that position
      and keeps every other key in its place in the order. */
  lemma {:induction false} RemoveKeyAt(keys: seq<int>, pid: int, i: nat)
    requires i < |keys| && keys[i] == pid && pid !in keys[..i] && pid !in keys[i + 1..]
    ensures RemoveKey(keys, pid) == keys[..i] + keys[i + 1..]
    decreases |keys|
  {
    var n := |keys|;
    var front, last := keys[..n - 1], keys[n - 1];
    if i == n - 1 {
      assert keys[..i] == front && keys[i + 1..] == [];
    } else {
      assert keys[i + 1..][n - 2 - i] == last;
      assert front[..i] == keys[..i];
      assert front[i + 1..] + [last] == keys[i + 1..];
      RemoveKeyAt(front, pid, i);
      AppendAssoc(keys[..i], front[i + 1..], [last]);
    }
  }

  /** In a key order without repeats, removing a present key cuts it out at
      its position and keeps every other key in its place in the order. */
  lemma RemoveKeyOrder(keys: seq<int>, pid: int)
    requires Distinct(keys) && pid in keys
    ensures exists i :: 0 <= i < |keys| && keys[i] == pid && RemoveKey(keys, pid) == keys[..i] + keys[i + 1..]
  {
    var i :| 0 <= i < |keys| && keys[i] == pid;
    assert pid !in keys[..i] && pid !in keys[i + 1..] by {
      forall j | 0 <= j < |keys| && j != i ensures keys[j] != pid {
        if j < i { assert keys[j] != keys[i]; } else { assert keys[i] != keys[j]; }
      }
    }
    RemoveKeyAt(keys, pid, i);
  }

  /** `del patients[pid]` when `pid` is a key; nothing otherwise. */
  function Remove(p: Patients, pid: int): (r: Patients)
    ensures pid !in r.visits && VisitsOf(r, pid) == []
    ensures forall k :: k != pid ==> VisitsOf(r, k) == VisitsOf(p, k) && (k in r.visits <==> k in p.visits)
    ensures WellFormed(p) ==> WellFormed(r) && r.keys == RemoveKey(p.keys, pid)
    ensures Stored(p) ==> Stored(r)
    ensures pid !in p.visits ==> r == p
  {
    if pid in p.visits then Patients(RemoveKey(p.keys, pid), p.visits - {pid}) else p
  }

  /** One line of the file: a decoded visit is recorded, anything else is skipped. */
  function Accept(p: Patients, line: string): (r: Patients)
    ensures DecodeLine(line).Failure? ==> r == p
    ensures DecodeLine(line).Success? ==> r == Insert(p, DecodeLine(line).value.0, DecodeLine(line).value.1)
    ensures Stored(p) ==> Stored(r)
  {
    match DecodeLine(line)
    case Success((pid, v)) => Insert(p, pid, v)
    case Failure(_) => p
  }

  /** The lines of a file applied in order to `acc`. */
  function LoadInto(acc: Patients, lines: seq<string>): (r: Patients)
    ensures Stored(acc) ==> Stored(r)
  {
    if lines == [] then acc
    else Accept(LoadInto(acc, lines[..|lines| - 1]), lines[|lines| - 1])
  }

  /** Reading a whole file into a fresh dictionary. */
  function Load(lines: seq<string>): (r: Patients)
    ensures Stored(r)
  {
    LoadInto(Empty(), lines)
  }

  // ---------------------------------------------------------------------------
  // An independent reading of a file: who appears, in what order, with what visits.

  /** The patient ids of the accepted lines, each at its first appearance. */
  function FirstSeen(lines: seq<string>): seq<int> {
    if lines == [] then []
    else
      var ids := FirstSeen(lines[..|lines| - 1]);
      match DecodeLine(lines[|lines| - 1])
      case Success((pid, _)) => if pid in ids then ids else ids + [pid]
      case Failure(_) => ids
  }

  /** The visits of the accepted lines for patient `k`, in file order. */
  function VisitsFor(lines: seq<string>, k: int): seq<Visit> {
    if lines == [] then []
    else
      var vs := VisitsFor(lines[..|lines| - 1], k);
      match DecodeLine(lines[|lines| - 1])
      case Success((pid, v)) => if pid == k then vs + [v] else vs
      case Failure(_) => vs
  }

  /** The number of lines that are accepted. */
  function CountAccepted(lines: seq<string>): nat {
    if lines == [] then 0
    else CountAccepted(lines[..|lines| - 1]) + (if DecodeLine(lines[|lines| - 1]).Success? then 1 else 0)
  }

  /**
   * Loading a file keeps the patients in the order they first appear in an
   * accepted line, gives each exactly its accepted visits in file order, and
   * a patient is present exactly when one of its lines was accepted.
   */
  lemma {:induction false} LoadCharacterised(lines: seq<string>)
    ensures Load(lines).keys == FirstSeen(lines)
    ensures forall k :: VisitsOf(Load(lines), k) == VisitsFor(lines, k)
    ensures forall k :: k in Load(lines).visits <==> VisitsFor(lines, k) != []
  {
    if lines != [] {
      var prefix := lines[..|lines| - 1];
      LoadCharacterised(prefix);
    }
  }

  /** The number of visits held in the dictionary. */
  function TotalVisits(p: Patients): nat {
    SumLengths(p.keys, p)
  }

  function SumLengths(keys: seq<int>, p: Patients): nat {
    if keys == [] then 0 else SumLengths(keys[..|keys| - 1], p) + |VisitsOf(p, keys[|keys| - 1])|
  }

  lemma {:induction false} SumLengthsAgree(keys: seq<int>, p: Patients, q: Patients)
    requires forall k :: k in keys ==> VisitsOf(p, k) == VisitsOf(q, k)
    ensures SumLengths(keys, p) == SumLengths(keys, q)
  {
    if keys != [] {
      SumLengthsAgree(keys[..|keys| - 1], p, q);
    }
  }

  lemma {:induction false} SumLengthsBump(keys: seq<int>, p: Patients, q: Patients, pid: int)
    requires Distinct(keys) && pid in keys
    requires forall k :: k in keys && k != pid ==> VisitsOf(p, k) == VisitsOf(q, k)
    requires |VisitsOf(q, pid)| == |VisitsOf(p, pid)| + 1
    ensures SumLengths(keys, q) == SumLengths(keys, p) + 1
  {
    var prefix := keys[..|keys| - 1];
    if keys[|keys| - 1] == pid {
      assert pid !in prefix;
      SumLengthsAgree(prefix, p, q);
    } else {
      SumLengthsBump(prefix, p, q, pid);
    }
  }

  /** Recording a visit adds one to the number of visits held. */
  lemma InsertCount(p: Patients, pid: int, v: Visit)
    requires WellFormed(p)
    ensures TotalVisits(Insert(p, pid, v)) == TotalVisits(p) + 1
  {
    var r := Insert(p, pid, v);
    if pid in p.visits {
      SumLengthsBump(p.keys, p, r, pid);
    } else {
      assert r.keys[..|r.keys| - 1] == p.keys;
      SumLengthsAgree(p.keys, p, r);
    }
  }

  /** Loading a file holds one visit per accepted line. */
  lemma {:induction false} LoadCount(lines: seq<string>)
    ensures TotalVisits(Load(lines)) == CountAccepted(lines)
  {
    if lines != [] {
      var prefix := lines[..|lines| - 1];
      LoadCount(prefix);
      match DecodeLine(lines[|lines| - 1])
      case Success((pid, v)) => InsertCount(Load(prefix), pid, v);
      case Failure(_) =>
    }
  }

  // ---------------------------------------------------------------------------
  // Writing the dictionary out.

  /** The lines written for one patient's visits, in order. */
  function PatientLines(k: int, vs: seq<Visit>): (r: seq<string>)
    ensures |r| == |vs|
  {
    if vs == [] then [] else PatientLines(k, vs[..|vs| - 1]) + [EncodeLine(k, vs[|vs| - 1])]
  }

  /** The lines written for the patients `keys`, patient after patient. */
  function LinesOf(keys: seq<int>, p: Patients): seq<string> {
    if keys == [] then [] else LinesOf(keys[..|keys| - 1], p) + PatientLines(keys[|keys| - 1], VisitsOf(p, keys[|keys| - 1]))
  }

  /** The whole file as the rewrite produces it. */
  function Lines(p: Patients): seq<string> {
    LinesOf(p.keys, p)
  }

  lemma LinesOfSnoc(keys: seq<int>, i: nat, p: Patients)
    requires i < |keys|
    ensures LinesOf(keys[..i + 1], p) == LinesOf(keys[..i], p) + PatientLines(keys[i], VisitsOf(p, keys[i]))
  {
    assert keys[..i + 1][..i] == keys[..i];
  }

  /** Every line written for a patient encodes one of the patient's visits. */
  lemma {:induction false} PatientLinesRecorded(k: int, vs: seq<Visit>, line: string)
    requires line in PatientLines(k, vs)
    ensures exists v :: v in vs && line == EncodeLine(k, v)
  {
    var front := vs[..|vs| - 1];
    if line in PatientLines(k, front) {
      PatientLinesRecorded(k, front, line);
      var v :| v in front && line == EncodeLine(k, v);
      assert v in vs;
    } else {
      assert line == EncodeLine(k, vs[|vs| - 1]);
    }
  }

  /** Every line written is the encoding of a recorded visit of one of the patients. */
  lemma {:induction false} LinesOfRecorded(keys: seq<int>, p: Patients, line: string)
    requires line in LinesOf(keys, p)
    ensures exists k, v :: k in keys && v in VisitsOf(p, k) && line == EncodeLine(k, v)
  {
    var prefix := keys[..|keys| - 1];
    var k := keys[|keys| - 1];
    if line in LinesOf(prefix, p) {
      LinesOfRecorded(prefix, p, line);
      var k', v :| k' in prefix && v in VisitsOf(p, k') && line == EncodeLine(k', v);
      assert k' in keys;
    } else {
      PatientLinesRecorded(k, VisitsOf(p, k), line);
    }
  }

  lemma {:induction false} LoadIntoAppend(acc: Patients, a: seq<string>, b: seq<string>)
    ensures LoadInto(acc, a + b) == LoadInto(LoadInto(acc, a), b)
  {
    if b == [] {
      assert a + b == a;
    } else {
      var b' := b[..|b| - 1];
      assert (a + b)[..|a + b| - 1] == a + b';
      LoadIntoAppend(acc, a, b');
    }
  }

  lemma LoadIntoSnoc(acc: Patients, lines: seq<string>, line: string)
    ensures LoadInto(acc, lines + [line]) == Accept(LoadInto(acc, lines), line)
  {
    assert (lines + [line])[..|lines|] == lines;
  }

  /** Loading one more line records its visit exactly when the line is accepted. */
  lemma LoadNext(lines: seq<string>, i: nat)
    requires i < |lines|
    ensures var d := DecodeLine(lines[i]);
      Load(lines[..i + 1]) == if d.Success? then Insert(Load(lines[..i]), d.value.0, d.value.1) else Load(lines[..i])
    ensures var d := DecodeLine(lines[i]); d.Success? ==> Storable(d.value.1)
  {
    assert lines[..i + 1] == lines[..i] + [lines[i]];
    LoadIntoSnoc(Empty(), lines[..i], lines[i]);
  }

  lemma AcceptEncoded(p: Patients, pid: int, v: Visit)
    requires Storable(v)
    ensures Accept(p, EncodeLine(pid, v)) == Insert(p, pid, v)
  {
    DecodeEncode(pid, v);
  }

  /** The lines for the first `j + 1` visits extend those for the first `j` by one. */
  lemma PatientLinesStep(k: int, vs: seq<Visit>, j: nat)
    requires j < |vs|
    ensures PatientLines(k, vs[..j + 1]) == PatientLines(k, vs[..j]) + [EncodeLine(k, vs[j])]
  {
    assert vs[..j + 1][..j] == vs[..j];
  }

  /** Recording the first visit of a patient not yet in the dictionary. */
  lemma InsertNew(q: Patients, k: int, v: Visit)
    requires k !in q.visits
    ensures Insert(q, k, v) == Patients(q.keys + [k], q.visits[k := [v]])
  {
  }

  /** Recording one more visit of the patient added last. */
  lemma InsertAgain(q: Patients, k: int, vs: seq<Visit>, v: Visit)
    ensures Insert(Patients(q.keys + [k], q.visits[k := vs]), k, v) == Patients(q.keys + [k], q.visits[k := vs + [v]])
  {
    assert q.visits[k := vs][k := vs + [v]] == q.visits[k := vs + [v]];
  }

  /** Concatenation regroups; stated once for any element type, which keeps
      the regrouping of long sequences of lines or pairs cheap. */
  lemma AppendAssoc<T>(a: seq<T>, b: seq<T>, c: seq<T>)
    ensures a + (b + c) == (a + b) + c
  {
  }

  /** Reading one more line of a patient's visits after the earlier ones. */
  lemma LoadPatientStep(q: Patients, k: int, vs: seq<Visit>)
    requires |vs| >= 1 && Storable(vs[|vs| - 1])
    ensures LoadInto(q, PatientLines(k, vs)) == Insert(LoadInto(q, PatientLines(k, vs[..|vs| - 1])), k, vs[|vs| - 1])
  {
    assert PatientLines(k, vs) == PatientLines(k, vs[..|vs| - 1]) + [EncodeLine(k, vs[|vs| - 1])];
    LoadIntoSnoc(q, PatientLines(k, vs[..|vs| - 1]), EncodeLine(k, vs[|vs| - 1]));
    AcceptEncoded(LoadInto(q, PatientLines(k, vs[..|vs| - 1])), k, vs[|vs| - 1]);
  }

  /** Reading back one patient's lines into a dictionary that lacks the patient. */
  lemma {:induction false} LoadPatient(q: Patients, k: int, vs: seq<Visit>)
    requires k !in q.visits && |vs| >= 1
    requires forall v :: v in vs ==> Storable(v)
    ensures LoadInto(q, PatientLines(k, vs)) == Patients(q.keys + [k], q.visits[k := vs])
  {
    var last := vs[|vs| - 1];
    var front := vs[..|vs| - 1];
    assert front + [last] == vs;
    LoadPatientStep(q, k, vs);
    if |front| == 0 {
      assert PatientLines(k, front) == [];
      InsertNew(q, k, last);
    } else {
      assert forall v :: v in front ==> v in vs;
      LoadPatient(q, k, front);
      InsertAgain(q, k, front, last);
    }
  }

  /** The dictionary restricted to its first `n` patients. */
  ghost function Restrict(p: Patients, n: nat): Patients
    requires WellFormed(p) && n <= |p.keys|
  {
    Patients(p.keys[..n], map k | k in p.keys[..n] :: p.visits[k])
  }

  /** The first `n` patients are the first `n - 1` with the `n`-th added at the end. */
  lemma RestrictStep(p: Patients, n: nat)
    requires WellFormed(p) && 0 < n <= |p.keys|
    ensures p.keys[n - 1] !in Restrict(p, n - 1).visits
    ensures Restrict(p, n) == Patients(Restrict(p, n - 1).keys + [p.keys[n - 1]],
                                       Restrict(p, n - 1).visits[p.keys[n - 1] := p.visits[p.keys[n - 1]]])
  {
    assert p.keys[..n] == p.keys[..n - 1] + [p.keys[n - 1]];
  }

  lemma {:induction false} RoundTripPrefix(p: Patients, n: nat)
    requires Stored(p) && n <= |p.keys|
    ensures Load(LinesOf(p.keys[..n], p)) == Restrict(p, n)
  {
    if n == 0 {
      assert Restrict(p, 0).visits == map[];
    } else {
      var k := p.keys[n - 1];
      assert p.keys[..n][..n - 1] == p.keys[..n - 1];
      RestrictStep(p, n);
      RoundTripPrefix(p, n - 1);
      LoadIntoAppend(Empty(), LinesOf(p.keys[..n - 1], p), PatientLines(k, VisitsOf(p, k)));
      LoadPatient(Restrict(p, n - 1), k, VisitsOf(p, k));
    }
  }

  lemma RestrictAll(p: Patients)
    requires WellFormed(p)
    ensures Restrict(p, |p.keys|) == p
  {
    var r := Restrict(p, |p.keys|);
    assert p.keys[..|p.keys|] == p.keys;
    forall k | k in p.visits
      ensures k in r.visits && r.visits[k] == p.visits[k]
    {
      assert k in p.keys;
    }
    assert r.visits == p.visits;
  }

  /** Rewriting a dictionary that loading could have built and reading it back gives it back unchanged. */
  lemma RoundTrip(p: Patients)
    requires Stored(p)
    ensures Load(Lines(p)) == p
  {
    assert p.keys[..|p.keys|] == p.keys;
    RoundTripPrefix(p, |p.keys|);
    RestrictAll(p);
  }

  /** Appending the line for a new visit has the effect of recording the visit in memory. */
  lemma AppendPersists(lines: seq<string>, pid: int, v: Visit)
    requires Storable(v)
    ensures Load(lines + [EncodeLine(pid, v)]) == Insert(Load(lines), pid, v)
  {
    assert (lines + [EncodeLine(pid, v)])[..|lines|] == lines;
    DecodeEncode(pid, v);
  }

  /**
   * Deleting a patient and rewriting the file: reading the file back gives
   * the dictionary after the deletion, and no line of it is for that patient.
   */
  lemma DeleteRewrite(p: Patients, pid: int)
    requires Stored(p)
    ensures Load(Lines(Remove(p, pid))) == Remove(p, pid)
    ensures forall line :: line in Lines(Remove(p, pid)) ==>
      DecodeLine(line).Success? && DecodeLine(line).value.0 != pid
  {
    var r := Remove(p, pid);
    RoundTrip(r);
    forall line | line in Lines(r)
      ensures DecodeLine(line).Success? && DecodeLine(line).value.0 != pid
    {
      LinesOfRecorded(r.keys, r, line);
      var k, v :| k in r.keys && v in VisitsOf(r, k) && line == EncodeLine(k, v);
      DecodeEncode(k, v);
    }
  }
}
