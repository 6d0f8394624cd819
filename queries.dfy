/**
 * The read side of the web service: the test results of one patient, flattened over the
 * patient's samples, and the patient lookups. Each query reads the database value it is given
 * and returns a projection of it or a not-found error; none of them changes the database.
 */
module Queries {
  import opened Wrappers
  import opened Text
  import opened Parsing
  import opened Entities

  /** One row of a patient's results: the sample's fields next to the result's. */
  datatype TestResultModel = TestResultModel(
    barcode: int, clinicNo: int, collectionDate: Date, collectionTime: Time,
    testCode: string, testName: string, result: string, unit: string,
    refRangeLow: Option<Decimal>, refRangeHigh: Option<Decimal>, note: string, nonSpecRefs: string)

  /** A patient as the service returns it; the readers never fill in the results. */
  datatype PatientModel = PatientModel(
    patientId: int, patientName: string, dateOfBirth: Date, gender: string,
    testResults: Option<seq<TestResultModel>>)

  /** The NotFoundException the readers raise, with its message. */
  datatype NotFound = NotFound(message: string)

  // ---- test results of a patient ----

  /** The row built for a result of a sample. */
  function Project(s: Sample, r: TestResult): (m: TestResultModel)
    ensures m.barcode == s.barcode && m.clinicNo == s.clinicNo
    ensures m.collectionDate == s.collectionDate && m.collectionTime == s.collectionTime
    ensures m.testCode == r.testCode && m.testName == r.testName && m.result == r.result && m.unit == r.unit
    ensures m.refRangeLow == r.refRangeLow && m.refRangeHigh == r.refRangeHigh
    ensures m.note == r.note && m.nonSpecRefs == r.nonSpecRefs
  {
    TestResultModel(s.barcode, s.clinicNo, s.collectionDate, s.collectionTime,
                    r.testCode, r.testName, r.result, r.unit,
                    r.refRangeLow, r.refRangeHigh, r.note, r.nonSpecRefs)
  }

  /** The rows of one sample: its results, in table order, each beside the sample. */
  function SampleRows(s: Sample, rs: seq<TestResult>): seq<TestResultModel> {
    if rs == [] then []
    else (if rs[0].sampleId == s.id then [Project(s, rs[0])] else []) + SampleRows(s, rs[1..])
  }

  /** The rows of every sample of the patient, sample after sample. */
  function PatientRows(ss: seq<Sample>, patientId: int, rs: seq<TestResult>): seq<TestResultModel> {
    if ss == [] then []
    else (if ss[0].patientId == patientId then SampleRows(ss[0], rs) else []) + PatientRows(ss[1..], patientId, rs)
  }

  /** The projection the query runs: the patients with that key, their samples, their samples' results. */
  function ResultRows(db: Store, patientId: int): seq<TestResultModel> {
    if HasPatient(db.patients, patientId) then PatientRows(db.samples, patientId, db.results) else []
  }

  /** GetTestResultsByPatientIdAsync: the rows, or NotFound when there are none. */
  function GetTestResultsByPatientId(db: Store, patientId: int): (r: Result<seq<TestResultModel>, NotFound>)
    ensures r.Success? ==> |r.value| > 0 && r.value == ResultRows(db, patientId)
    ensures r.Failure? <==> ResultRows(db, patientId) == []
    ensures r.Failure? ==> r.error.message == "No test results found for patient with ID " + IntToString(patientId) + "."
  {
    var rows := ResultRows(db, patientId);
    if |rows| == 0 then Failure(NotFound("No test results found for patient with ID " + IntToString(patientId) + "."))
    else Success(rows)
  }

  /** How many results belong to the sample. */
  function ResultCount(s: Sample, rs: seq<TestResult>): nat {
    if rs == [] then 0 else (if rs[0].sampleId == s.id then 1 else 0) + ResultCount(s, rs[1..])
  }

  /** The sum, over the patient's samples, of each sample's result count. */
  function PatientResultCount(ss: seq<Sample>, patientId: int, rs: seq<TestResult>): nat {
    if ss == [] then 0
    else (if ss[0].patientId == patientId then ResultCount(ss[0], rs) else 0) + PatientResultCount(ss[1..], patientId, rs)
  }

  lemma {:induction false} SampleRowsCount(s: Sample, rs: seq<TestResult>)
    ensures |SampleRows(s, rs)| == ResultCount(s, rs)
  {
    if rs != [] {
      SampleRowsCount(s, rs[1..]);
    }
  }

  lemma {:induction false} PatientRowsCount(ss: seq<Sample>, patientId: int, rs: seq<TestResult>)
    ensures |PatientRows(ss, patientId, rs)| == PatientResultCount(ss, patientId, rs)
  {
    if ss != [] {
      SampleRowsCount(ss[0], rs);
      PatientRowsCount(ss[1..], patientId, rs);
    }
  }

  /** A known patient gets one row per result of each of its samples. */
  lemma RowCountIsSumOverSamples(db: Store, patientId: int)
    requires HasPatient(db.patients, patientId)
    ensures |ResultRows(db, patientId)| == PatientResultCount(db.samples, patientId, db.results)
  {
    PatientRowsCount(db.samples, patientId, db.results);
  }

  /** The result at index k belongs to the sample. */
  predicate OfSample(rs: seq<TestResult>, k: int, s: Sample) {
    0 <= k < |rs| && rs[k].sampleId == s.id
  }

  lemma {:induction false} SampleRowsMembers(s: Sample, rs: seq<TestResult>, m: TestResultModel)
    ensures m in SampleRows(s, rs) <==> exists k :: OfSample(rs, k, s) && m == Project(s, rs[k])
  {
    if rs != [] {
      SampleRowsMembers(s, rs[1..], m);
      if exists k :: OfSample(rs[1..], k, s) && m == Project(s, rs[1..][k]) {
        var k :| OfSample(rs[1..], k, s) && m == Project(s, rs[1..][k]);
        assert OfSample(rs, k + 1, s) && m == Project(s, rs[k + 1]);
      }
      if exists k :: OfSample(rs, k, s) && m == Project(s, rs[k]) {
        var k :| OfSample(rs, k, s) && m == Project(s, rs[k]);
        if k > 0 {
          assert OfSample(rs[1..], k - 1, s) && m == Project(s, rs[1..][k - 1]);
        }
      }
    }
  }

  /** Row m comes from sample i of the patient and result k of that sample. */
  predicate RowOf(ss: seq<Sample>, patientId: int, rs: seq<TestResult>, i: int, k: int, m: TestResultModel) {
    0 <= i < |ss| && ss[i].patientId == patientId && OfSample(rs, k, ss[i]) && m == Project(ss[i], rs[k])
  }

  lemma {:induction false} PatientRowsMembers(ss: seq<Sample>, patientId: int, rs: seq<TestResult>, m: TestResultModel)
    ensures m in PatientRows(ss, patientId, rs) <==> exists i, k :: RowOf(ss, patientId, rs, i, k, m)
  {
    if ss != [] {
      PatientRowsMembers(ss[1..], patientId, rs, m);
      SampleRowsMembers(ss[0], rs, m);
      if exists i, k :: RowOf(ss[1..], patientId, rs, i, k, m) {
        var i, k :| RowOf(ss[1..], patientId, rs, i, k, m);
        assert RowOf(ss, patientId, rs, i + 1, k, m);
      }
      if ss[0].patientId == patientId && exists k :: OfSample(rs, k, ss[0]) && m == Project(ss[0], rs[k]) {
        var k :| OfSample(rs, k, ss[0]) && m == Project(ss[0], rs[k]);
        assert RowOf(ss, patientId, rs, 0, k, m);
      }
      if exists i, k :: RowOf(ss, patientId, rs, i, k, m) {
        var i, k :| RowOf(ss, patientId, rs, i, k, m);
        if i > 0 {
          assert RowOf(ss[1..], patientId, rs, i - 1, k, m);
        } else {
          assert OfSample(rs, k, ss[0]) && m == Project(ss[0], rs[k]);
        }
      }
    }
  }

  /**
   * A row is returned exactly when the patient is stored and the row pairs one of the
   * patient's samples with one of that sample's results, carrying the sample's and the
   * result's fields; no row comes from another patient's samples.
   */
  lemma RowsAreThePatientsResults(db: Store, patientId: int, m: TestResultModel)
    ensures m in ResultRows(db, patientId) <==>
      HasPatient(db.patients, patientId) && exists i, k :: RowOf(db.samples, patientId, db.results, i, k, m)
  {
    PatientRowsMembers(db.samples, patientId, db.results, m);
  }

  /** An unknown patient is reported as having no results. */
  lemma UnknownPatientHasNoResults(db: Store, patientId: int)
    requires !HasPatient(db.patients, patientId)
    ensures GetTestResultsByPatientId(db, patientId)
      == Failure(NotFound("No test results found for patient with ID " + IntToString(patientId) + "."))
  {
  }

  /** A known patient none of whose samples has a result is reported the same way. */
  lemma {:induction false} PatientWithoutResultsNotFound(db: Store, patientId: int)
    requires forall i, k :: 0 <= i < |db.samples| && 0 <= k < |db.results| && db.samples[i].patientId == patientId ==>
               db.results[k].sampleId != db.samples[i].id
    ensures GetTestResultsByPatientId(db, patientId).Failure?
  {
    if ResultRows(db, patientId) != [] {
      var m := ResultRows(db, patientId)[0];
      RowsAreThePatientsResults(db, patientId, m);
      assert false;
    }
  }

  // ---- patients ----

  /** The model built for a stored patient. */
  function ToModel(p: Patient): (m: PatientModel)
    ensures m.patientId == p.id && m.patientName == p.name && m.dateOfBirth == p.dateOfBirth && m.gender == p.gender
    ensures m.testResults.None?
  {
    PatientModel(p.id, p.name, p.dateOfBirth, p.gender, None)
  }

  /** GetPatientAsync: the first patient with that key, or NotFound. */
  function GetPatient(db: Store, id: int): (r: Result<PatientModel, NotFound>)
    ensures r.Success? <==> HasPatient(db.patients, id)
    ensures r.Success? ==> r.value.patientId == id && r.value.testResults.None?
    ensures r.Success? ==> exists k :: 0 <= k < |db.patients| && r.value == ToModel(db.patients[k])
    ensures r.Failure? ==> r.error.message == "Patient with ID " + IntToString(id) + " not found."
  {
    match FindPatient(db.patients, id)
    case Some(p) =>
      var k :| 0 <= k < |db.patients| && db.patients[k] == p;
      Success(ToModel(p))
    case None => Failure(NotFound("Patient with ID " + IntToString(id) + " not found."))
  }

  /** In a well-formed database the lookup by a stored patient's key yields that patient. */
  lemma GetPatientFindsStored(db: Store, k: int)
    requires WellFormed(db) && 0 <= k < |db.patients|
    ensures GetPatient(db, db.patients[k].id) == Success(ToModel(db.patients[k]))
  {
    var p := FindPatient(db.patients, db.patients[k].id);
    assert p.Some?;
    var j :| 0 <= j < |db.patients| && db.patients[j] == p.value;
    assert j == k;
  }

  /**
   * The order of the database's ORDER BY on a text column under its default BINARY collation:
   * lexicographic on the characters' code points, a prefix first.
   */
  predicate NameLeq(a: string, b: string) {
    if a == [] then true
    else if b == [] then false
    else if a[0] != b[0] then a[0] < b[0]
    else NameLeq(a[1..], b[1..])
  }

  lemma {:induction false} NameLeqTotal(a: string, b: string)
    ensures NameLeq(a, b) || NameLeq(b, a)
  {
    if a != [] && b != [] && a[0] == b[0] {
      NameLeqTotal(a[1..], b[1..]);
    }
  }

  lemma {:induction false} NameLeqTransitive(a: string, b: string, c: string)
    requires NameLeq(a, b) && NameLeq(b, c)
    ensures NameLeq(a, c)
  {
    if a != [] && b != [] && c != [] && a[0] == b[0] && b[0] == c[0] {
      NameLeqTransitive(a[1..], b[1..], c[1..]);
    }
  }

  lemma {:induction false} NameLeqAntisymmetric(a: string, b: string)
    requires NameLeq(a, b) && NameLeq(b, a)
    ensures a == b
  {
    if a != [] && b != [] {
      NameLeqAntisymmetric(a[1..], b[1..]);
      assert a == [a[0]] + a[1..] && b == [b[0]] + b[1..];
    }
  }

  /** Ascending by name. */
  predicate SortedByName(ms: seq<PatientModel>) {
    forall i, j :: 0 <= i < j < |ms| ==> NameLeq(ms[i].patientName, ms[j].patientName)
  }

  /** The model placed before the first one whose name it does not exceed. */
  function InsertByName(m: PatientModel, ms: seq<PatientModel>): (r: seq<PatientModel>)
    ensures multiset(r) == multiset(ms) + multiset{m}
  {
    if ms == [] then [m]
    else if NameLeq(m.patientName, ms[0].patientName) then [m] + ms
    else
      assert ms == [ms[0]] + ms[1..];
      [ms[0]] + InsertByName(m, ms[1..])
  }

  lemma {:induction false} InsertByNameSorted(m: PatientModel, ms: seq<PatientModel>)
    requires SortedByName(ms)
    ensures SortedByName(InsertByName(m, ms))
  {
    if ms == [] {
    } else if NameLeq(m.patientName, ms[0].patientName) {
      forall j | 0 <= j < |ms|
        ensures NameLeq(m.patientName, ms[j].patientName)
      {
        if j > 0 {
          NameLeqTransitive(m.patientName, ms[0].patientName, ms[j].patientName);
        }
      }
    } else {
      NameLeqTotal(m.patientName, ms[0].patientName);
      var tail := InsertByName(m, ms[1..]);
      InsertByNameSorted(m, ms[1..]);
      forall j | 0 <= j < |tail|
        ensures NameLeq(ms[0].patientName, tail[j].patientName)
      {
        assert tail[j] in multiset(ms[1..]) + multiset{m};
        if tail[j] != m {
          assert tail[j] in ms[1..];
        }
      }
    }
  }

  /** OrderBy(p => p.PatientName): an insertion sort by name. */
  function SortByName(ms: seq<PatientModel>): (r: seq<PatientModel>)
    ensures multiset(r) == multiset(ms)
    ensures SortedByName(r)
  {
    if ms == [] then []
    else
      InsertByNameSorted(ms[0], SortByName(ms[1..]));
      assert ms == [ms[0]] + ms[1..];
      InsertByName(ms[0], SortByName(ms[1..]))
  }

  /** The model of every stored patient, in table order. */
  function Models(ps: seq<Patient>): (r: seq<PatientModel>)
    ensures |r| == |ps| && forall k :: 0 <= k < |ps| ==> r[k] == ToModel(ps[k])
  {
    seq(|ps|, k requires 0 <= k < |ps| => ToModel(ps[k]))
  }

  /** GetPatientsAsync: every stored patient's model, sorted by name. */
  function GetPatients(db: Store): (r: seq<PatientModel>)
    ensures |r| == |db.patients|
    ensures multiset(r) == multiset(Models(db.patients))
    ensures SortedByName(r)
  {
    var r := SortByName(Models(db.patients));
    assert |r| == |multiset(r)|;
    r
  }

  /** Every stored patient appears in the list, nothing else does, and no entry carries results. */
  lemma PatientsListed(db: Store, m: PatientModel)
    ensures m in GetPatients(db) <==> exists k :: 0 <= k < |db.patients| && m == ToModel(db.patients[k])
    ensures m in GetPatients(db) ==> m.testResults.None?
  {
    var r := GetPatients(db);
    assert m in r <==> m in multiset(Models(db.patients));
    assert m in multiset(Models(db.patients)) <==> m in Models(db.patients);
  }
}
