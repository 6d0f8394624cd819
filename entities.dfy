/**
 * The persisted entities (Patient, Sample, TestResult) and the database that holds them: three
 * tables, each a sequence of rows in primary-key order, with the AUTOINCREMENT sequences SQLite
 * keeps for the Samples and TestResults keys.
 */
module Entities {
  import opened Wrappers
  import opened Parsing

  datatype Patient = Patient(id: int, name: string, dateOfBirth: Date, gender: string)

  datatype Sample = Sample(
    id: int, barcode: int, clinicNo: int, collectionDate: Date, collectionTime: Time, patientId: int)

  datatype TestResult = TestResult(
    id: int, testCode: string, testName: string, result: string, unit: string,
    refRangeLow: Option<Decimal>, refRangeHigh: Option<Decimal>, note: string, nonSpecRefs: string,
    sampleId: int)

  /**
   * The database: the Patients, Samples and TestResults tables, and the last key SQLite handed
   * out for Samples and for TestResults.
   */
  datatype Store = Store(
    patients: seq<Patient>, samples: seq<Sample>, results: seq<TestResult>, sampleSeq: int, resultSeq: int)

  /** The first patient with the given id, if any (FirstOrDefault / SingleOrDefault on the key). */
  function FindPatient(ps: seq<Patient>, id: int): (r: Option<Patient>)
    ensures r.Some? ==> r.value in ps && r.value.id == id
    ensures r.None? <==> forall k :: 0 <= k < |ps| ==> ps[k].id != id
  {
    if ps == [] then None
    else if ps[0].id == id then Some(ps[0])
    else FindPatient(ps[1..], id)
  }

  /** The first sample with the given barcode, if any. */
  function FindSample(ss: seq<Sample>, barcode: int): (r: Option<Sample>)
    ensures r.Some? ==> r.value in ss && r.value.barcode == barcode
    ensures r.None? <==> forall k :: 0 <= k < |ss| ==> ss[k].barcode != barcode
  {
    if ss == [] then None
    else if ss[0].barcode == barcode then Some(ss[0])
    else FindSample(ss[1..], barcode)
  }

  predicate PatientIdsDistinct(ps: seq<Patient>) {
    forall i, j :: 0 <= i < j < |ps| ==> ps[i].id != ps[j].id
  }

  predicate BarcodesDistinct(ss: seq<Sample>) {
    forall i, j :: 0 <= i < j < |ss| ==> ss[i].barcode != ss[j].barcode
  }

  predicate SampleIdsDistinct(ss: seq<Sample>) {
    forall i, j :: 0 <= i < j < |ss| ==> ss[i].id != ss[j].id
  }

  predicate ResultIdsDistinct(rs: seq<TestResult>) {
    forall i, j :: 0 <= i < j < |rs| ==> rs[i].id != rs[j].id
  }

  predicate HasPatient(ps: seq<Patient>, id: int) {
    exists k :: 0 <= k < |ps| && ps[k].id == id
  }

  predicate HasSample(ss: seq<Sample>, id: int) {
    exists k :: 0 <= k < |ss| && ss[k].id == id
  }

  predicate HasBarcode(ss: seq<Sample>, barcode: int) {
    exists k :: 0 <= k < |ss| && ss[k].barcode == barcode
  }

  /**
   * What the schema demands of the database: primary keys unique, the unique index on
   * Samples.Barcode, the two foreign keys, and no key above its AUTOINCREMENT sequence.
   */
  predicate WellFormed(db: Store) {
    && PatientIdsDistinct(db.patients)
    && SampleIdsDistinct(db.samples)
    && BarcodesDistinct(db.samples)
    && ResultIdsDistinct(db.results)
    && (forall k :: 0 <= k < |db.samples| ==> HasPatient(db.patients, db.samples[k].patientId))
    && (forall k :: 0 <= k < |db.results| ==> HasSample(db.samples, db.results[k].sampleId))
    && (forall k :: 0 <= k < |db.samples| ==> db.samples[k].id <= db.sampleSeq)
    && (forall k :: 0 <= k < |db.results| ==> db.results[k].id <= db.resultSeq)
  }
}
