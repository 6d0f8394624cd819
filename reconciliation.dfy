/**
 * The upsert writer of the console loader (LabDataWriter.ProcessAndSaveDataAsync): each record
 * finds or creates its patient and its sample, then updates or creates its test result; the
 * context stages every change and one save at the end writes them all.
 */
module Reconciliation {
  import opened Wrappers
  import opened Parsing
  import opened LabRecord
  import opened Entities
  import Text

  /** The exceptions the loop can raise; each aborts the run before the save. */
  datatype WriteError =
    | InvalidDateOfBirth(dob: string)
    | InvalidClinicNo(clinicNo: string)
    | InvalidCollectionDate(collectionDate: string)
    | InvalidCollectionTime(collectionTime: string)
    | MoreThanOneStoredResult(testCode: string)

  /**
   * The writer as the code has it, and as it is evidently meant: the corrected writer reads the
   * collection time on the 24-hour clock (assuming the files write times that way) and looks for
   * a stored result among the sample's own.
   */
  datatype Rules = AsWritten | Corrected

  /** TimeOnly.ParseExact with the writer's time format. */
  function ParseCollectionTime(rules: Rules, s: string): Option<Time> {
    match rules
    case AsWritten => ParseTimeHh(s)
    case Corrected => ParseTimeHH(s)
  }

  /**
   * The store query for an existing result. As written its filter tests sample.Barcode against
   * the barcode sample was found by, which always holds, so only the test code counts.
   */
  predicate StoreQueryMatches(rules: Rules, r: TestResult, sampleId: int, testCode: string) {
    match rules
    case AsWritten => r.testCode == testCode
    case Corrected => r.sampleId == sampleId && r.testCode == testCode
  }

  /** The stored results the query matches, in table order. */
  function StoredMatches(rs: seq<TestResult>, rules: Rules, sampleId: int, testCode: string): (r: seq<TestResult>)
    ensures |r| <= |rs|
    ensures forall x :: x in r ==> x in rs && StoreQueryMatches(rules, x, sampleId, testCode)
    ensures forall k :: 0 <= k < |rs| && StoreQueryMatches(rules, rs[k], sampleId, testCode) ==> rs[k] in r
  {
    if rs == [] then []
    else
      (if StoreQueryMatches(rules, rs[0], sampleId, testCode) then [rs[0]] else [])
      + StoredMatches(rs[1..], rules, sampleId, testCode)
  }

  /**
   * What the context holds besides the database: the patients and samples added, the results it
   * tracks as added or modified (in tracking order), and the last keys handed out.
   */
  datatype Staged = Staged(
    patients: seq<Patient>, samples: seq<Sample>, results: seq<TestResult>, sampleSeq: int, resultSeq: int)

  /** A fresh context over the database. */
  function Initial(db: Store): Staged {
    Staged([], [], [], db.sampleSeq, db.resultSeq)
  }

  /** Where processing stopped: the context, and the exception if one was raised. */
  datatype Outcome = Outcome(staged: Staged, error: Option<WriteError>)

  /** sample.TestResults.FirstOrDefault(tr => tr.TestCode == testCode): the first tracked result of the sample with that code. */
  function FindTracked(rs: seq<TestResult>, sampleId: int, testCode: string): (r: Option<nat>)
    ensures r.Some? ==> r.value < |rs| && rs[r.value].sampleId == sampleId && rs[r.value].testCode == testCode
    ensures r.None? <==> forall k :: 0 <= k < |rs| ==> !(rs[k].sampleId == sampleId && rs[k].testCode == testCode)
  {
    if rs == [] then None
    else if rs[0].sampleId == sampleId && rs[0].testCode == testCode then Some(0)
    else match FindTracked(rs[1..], sampleId, testCode)
      case None => None
      case Some(k) => Some(k + 1)
  }

  /** The tracked instance with the given key, if the context tracks one. */
  function IndexOfId(rs: seq<TestResult>, id: int): (r: Option<nat>)
    ensures r.Some? ==> r.value < |rs| && rs[r.value].id == id
    ensures r.None? <==> forall k :: 0 <= k < |rs| ==> rs[k].id != id
  {
    if rs == [] then None
    else if rs[0].id == id then Some(0)
    else match IndexOfId(rs[1..], id)
      case None => None
      case Some(k) => Some(k + 1)
  }

  /** The six fields an existing result takes from the record; its key, code, name and sample stay. */
  function Updated(r: TestResult, rec: LabData): (u: TestResult)
    ensures u.id == r.id && u.testCode == r.testCode && u.testName == r.testName && u.sampleId == r.sampleId
    ensures u.result == rec.result && u.unit == rec.unit && u.note == rec.note && u.nonSpecRefs == rec.nonSpecRefs
  {
    r.(result := rec.result, unit := rec.unit,
       refRangeLow := ParseNullableDecimal(rec.refRangeLow), refRangeHigh := ParseNullableDecimal(rec.refRangeHigh),
       note := rec.note, nonSpecRefs := rec.nonSpecRefs)
  }

  /** A new result of the sample, every field from the record. */
  function Created(rec: LabData, id: int, sampleId: int): (c: TestResult)
    ensures c.id == id && c.sampleId == sampleId
    ensures c.testCode == rec.testCode && c.testName == rec.testName
    ensures c.result == rec.result && c.unit == rec.unit && c.note == rec.note && c.nonSpecRefs == rec.nonSpecRefs
  {
    TestResult(id, rec.testCode, rec.testName, rec.result, rec.unit,
               ParseNullableDecimal(rec.refRangeLow), ParseNullableDecimal(rec.refRangeHigh),
               rec.note, rec.nonSpecRefs, sampleId)
  }

  /**
   * Both an update and a new result read the two reference ranges through ParseNullableDecimal:
   * a blank range is null, and a range in the invariant decimal form is its value.
   */
  lemma RangesParsed(r: TestResult, rec: LabData, id: int, sampleId: int)
    ensures Updated(r, rec).refRangeLow == ParseNullableDecimal(rec.refRangeLow)
    ensures Updated(r, rec).refRangeHigh == ParseNullableDecimal(rec.refRangeHigh)
    ensures Created(rec, id, sampleId).refRangeLow == ParseNullableDecimal(rec.refRangeLow)
    ensures Created(rec, id, sampleId).refRangeHigh == ParseNullableDecimal(rec.refRangeHigh)
    ensures Text.IsBlank(rec.refRangeLow) ==> Updated(r, rec).refRangeLow.None? && Created(rec, id, sampleId).refRangeLow.None?
    ensures forall d :: rec.refRangeLow == FormatDecimal(d) ==>
      Updated(r, rec).refRangeLow == Some(d) && Created(rec, id, sampleId).refRangeLow == Some(d)
  {
    forall d | rec.refRangeLow == FormatDecimal(d)
      ensures ParseNullableDecimal(rec.refRangeLow) == Some(d)
    {
      ParseNullableDecimalRoundTrip(d);
    }
  }

  /** An entity found or created, and the context afterwards. */
  datatype Resolved<T> = Resolved(entity: T, staged: Staged)

  /** Find or create the patient: the context first, then the database, else a new patient. */
  function FindOrCreatePatient(db: Store, st: Staged, id: int, rec: LabData): Result<Resolved<Patient>, WriteError> {
    match FindPatient(st.patients, id)
    case Some(p) => Success(Resolved(p, st))
    case None =>
      match FindPatient(db.patients, id)
      case Some(p) => Success(Resolved(p, st))
      case None =>
        match ParseDate(rec.dob)
        case None => Failure(InvalidDateOfBirth(rec.dob))
        case Some(dob) =>
          var p := Patient(id, rec.patientName, dob, rec.gender);
          Success(Resolved(p, st.(patients := st.patients + [p])))
  }

  /** Find or create the sample by barcode, the same way; a new sample gets the next key and the patient's id. */
  function FindOrCreateSample(db: Store, st: Staged, barcode: int, patient: Patient, rec: LabData, rules: Rules)
    : Result<Resolved<Sample>, WriteError>
  {
    match FindSample(st.samples, barcode)
    case Some(s) => Success(Resolved(s, st))
    case None =>
      match FindSample(db.samples, barcode)
      case Some(s) => Success(Resolved(s, st))
      case None =>
        match ParseInt32(rec.clinicNo)
        case None => Failure(InvalidClinicNo(rec.clinicNo))
        case Some(clinicNo) =>
          match ParseDate(rec.collectionDate)
          case None => Failure(InvalidCollectionDate(rec.collectionDate))
          case Some(date) =>
            match ParseCollectionTime(rules, rec.collectionTime)
            case None => Failure(InvalidCollectionTime(rec.collectionTime))
            case Some(time) =>
              var s := Sample(st.sampleSeq + 1, barcode, clinicNo, date, time, patient.id);
              Success(Resolved(s, st.(samples := st.samples + [s], sampleSeq := st.sampleSeq + 1)))
  }

  /** Update the sample's result with the record's test code, or create it. */
  function UpsertResult(db: Store, st: Staged, sample: Sample, rec: LabData, rules: Rules): Outcome {
    match FindTracked(st.results, sample.id, rec.testCode)
    case Some(i) => Outcome(st.(results := st.results[i := Updated(st.results[i], rec)]), None)
    case None =>
      var matches := StoredMatches(db.results, rules, sample.id, rec.testCode);
      if |matches| > 1 then Outcome(st, Some(MoreThanOneStoredResult(rec.testCode)))
      else if |matches| == 1 then
        match IndexOfId(st.results, matches[0].id)
        case Some(j) => Outcome(st.(results := st.results[j := Updated(st.results[j], rec)]), None)
        case None => Outcome(st.(results := st.results + [Updated(matches[0], rec)]), None)
      else
        var r := Created(rec, st.resultSeq + 1, sample.id);
        Outcome(st.(results := st.results + [r], resultSeq := st.resultSeq + 1), None)
  }

  /** One turn of the loop: a record whose patient id or barcode does not parse is skipped. */
  function Step(db: Store, st: Staged, rec: LabData, rules: Rules): Outcome {
    match ParseInt32(rec.patientId)
    case None => Outcome(st, None)
    case Some(patientId) =>
      match ParseInt64(rec.barcode)
      case None => Outcome(st, None)
      case Some(barcode) =>
        match FindOrCreatePatient(db, st, patientId, rec)
        case Failure(e) => Outcome(st, Some(e))
        case Success(p) =>
          match FindOrCreateSample(db, p.staged, barcode, p.entity, rec, rules)
          case Failure(e) => Outcome(p.staged, Some(e))
          case Success(s) => UpsertResult(db, s.staged, s.entity, rec, rules)
  }

  /** The loop over the records, stopping at the first exception. */
  function Run(db: Store, st: Staged, records: seq<LabData>, rules: Rules): Outcome {
    if records == [] then Outcome(st, None)
    else
      var prior := Run(db, st, records[..|records| - 1], rules);
      if prior.error.Some? then prior else Step(db, prior.staged, records[|records| - 1], rules)
  }

  /** The stored rows as saved: each one the context modified replaced by its tracked instance. */
  function SavedRows(rows: seq<TestResult>, tracked: seq<TestResult>): (r: seq<TestResult>)
    ensures |r| == |rows|
    ensures forall k :: 0 <= k < |rows| ==> r[k] == match IndexOfId(tracked, rows[k].id)
      case Some(j) => tracked[j]
      case None => rows[k]
  {
    seq(|rows|, k requires 0 <= k < |rows| =>
      match IndexOfId(tracked, rows[k].id)
      case Some(j) => tracked[j]
      case None => rows[k])
  }

  /** The tracked results that are not stored rows: the ones to insert, in tracking order. */
  function AddedRows(rows: seq<TestResult>, tracked: seq<TestResult>): (r: seq<TestResult>)
    ensures forall x :: x in r ==> x in tracked && IndexOfId(rows, x.id).None?
    ensures forall k :: 0 <= k < |tracked| && IndexOfId(rows, tracked[k].id).None? ==> tracked[k] in r
  {
    if tracked == [] then []
    else
      (if IndexOfId(rows, tracked[0].id).None? then [tracked[0]] else [])
      + AddedRows(rows, tracked[1..])
  }

  /** SaveChangesAsync: the added rows inserted, the modified rows updated, the key sequences advanced. */
  function Commit(db: Store, st: Staged): Store {
    Store(db.patients + st.patients, db.samples + st.samples,
          SavedRows(db.results, st.results) + AddedRows(db.results, st.results),
          st.sampleSeq, st.resultSeq)
  }

  /** The whole call: the loop, then the save if no exception was raised. */
  function ProcessAndSave(db: Store, st: Staged, records: seq<LabData>, rules: Rules): Store {
    var out := Run(db, st, records, rules);
    if out.error.None? then Commit(db, out.staged) else db
  }

  /** Once the loop has raised an exception, later records do not change where it stopped. */
  lemma {:induction false} RunPrefixFailure(db: Store, st: Staged, records: seq<LabData>, m: nat, rules: Rules)
    requires m <= |records|
    requires Run(db, st, records[..m], rules).error.Some?
    ensures Run(db, st, records, rules) == Run(db, st, records[..m], rules)
    decreases |records| - m
  {
    if m < |records| {
      var front := records[..|records| - 1];
      assert front[..m] == records[..m];
      RunPrefixFailure(db, st, front, m, rules);
    } else {
      assert records[..m] == records;
    }
  }

  /**
   * The writer over one database context: the database as saved, and what the context has
   * staged since the last save.
   */
  class Writer {
    const rules: Rules
    var db: Store
    var patients: seq<Patient>
    var samples: seq<Sample>
    var results: seq<TestResult>
    var sampleSeq: int
    var resultSeq: int

    function Pending(): Staged
      reads this
    {
      Staged(patients, samples, results, sampleSeq, resultSeq)
    }

    constructor(rules: Rules, db: Store)
      ensures this.rules == rules && this.db == db && Pending() == Initial(db)
    {
      this.rules := rules;
      this.db := db;
      patients, samples, results := [], [], [];
      sampleSeq, resultSeq := db.sampleSeq, db.resultSeq;
    }

    /** The patient lookup of the loop body, creating the patient when neither the context nor the database has it. */
    method FindOrCreatePatientIn(id: int, rec: LabData) returns (r: Result<Patient, WriteError>)
      modifies this
      ensures db == old(db)
      ensures FindOrCreatePatient(db, old(Pending()), id, rec).Failure? ==>
        r == Failure(FindOrCreatePatient(db, old(Pending()), id, rec).error) && Pending() == old(Pending())
      ensures FindOrCreatePatient(db, old(Pending()), id, rec).Success? ==>
        r == Success(FindOrCreatePatient(db, old(Pending()), id, rec).value.entity)
        && Pending() == FindOrCreatePatient(db, old(Pending()), id, rec).value.staged
    {
      var patient := FindPatient(patients, id);
      if patient.None? {
        patient := FindPatient(db.patients, id);
      }
      if patient.None? {
        var dob := ParseDate(rec.dob);
        if dob.None? {
          return Failure(InvalidDateOfBirth(rec.dob));
        }
        patient := Some(Patient(id, rec.patientName, dob.value, rec.gender));
        patients := patients + [patient.value];
      }
      r := Success(patient.value);
    }

    /** The sample lookup of the loop body, creating the sample when neither the context nor the database has it. */
    method FindOrCreateSampleIn(barcode: int, patient: Patient, rec: LabData) returns (r: Result<Sample, WriteError>)
      modifies this
      ensures db == old(db)
      ensures FindOrCreateSample(db, old(Pending()), barcode, patient, rec, rules).Failure? ==>
        r == Failure(FindOrCreateSample(db, old(Pending()), barcode, patient, rec, rules).error)
        && Pending() == old(Pending())
      ensures FindOrCreateSample(db, old(Pending()), barcode, patient, rec, rules).Success? ==>
        r == Success(FindOrCreateSample(db, old(Pending()), barcode, patient, rec, rules).value.entity)
        && Pending() == FindOrCreateSample(db, old(Pending()), barcode, patient, rec, rules).value.staged
    {
      var sample := FindSample(samples, barcode);
      if sample.None? {
        sample := FindSample(db.samples, barcode);
      }
      if sample.None? {
        var clinicNo := ParseInt32(rec.clinicNo);
        if clinicNo.None? {
          return Failure(InvalidClinicNo(rec.clinicNo));
        }
        var date := ParseDate(rec.collectionDate);
        if date.None? {
          return Failure(InvalidCollectionDate(rec.collectionDate));
        }
        var time := ParseCollectionTime(rules, rec.collectionTime);
        if time.None? {
          return Failure(InvalidCollectionTime(rec.collectionTime));
        }
        sampleSeq := sampleSeq + 1;
        sample := Some(Sample(sampleSeq, barcode, clinicNo.value, date.value, time.value, patient.id));
        samples := samples + [sample.value];
      }
      r := Success(sample.value);
    }

    /** The result half of the loop body: update the sample's result with the record's code, or add one. */
    method UpsertResultIn(sample: Sample, rec: LabData) returns (err: Option<WriteError>)
      modifies this
      ensures db == old(db)
      ensures Outcome(Pending(), err) == UpsertResult(db, old(Pending()), sample, rec, rules)
    {
      var local := FindTracked(results, sample.id, rec.testCode);
      if local.Some? {
        results := results[local.value := Updated(results[local.value], rec)];
        return None;
      }
      var matches := StoredMatches(db.results, rules, sample.id, rec.testCode);
      if |matches| > 1 {
        return Some(MoreThanOneStoredResult(rec.testCode));
      }
      if |matches| == 1 {
        var tracked := IndexOfId(results, matches[0].id);
        if tracked.Some? {
          results := results[tracked.value := Updated(results[tracked.value], rec)];
        } else {
          results := results + [Updated(matches[0], rec)];
        }
        return None;
      }
      resultSeq := resultSeq + 1;
      results := results + [Created(rec, resultSeq, sample.id)];
      err := None;
    }

    /** The body of the loop for one record. */
    method ProcessRecord(rec: LabData) returns (err: Option<WriteError>)
      modifies this
      ensures db == old(db)
      ensures Outcome(Pending(), err) == Step(db, old(Pending()), rec, rules)
    {
      var patientId := ParseInt32(rec.patientId);
      if patientId.None? {
        return None;
      }
      var barcode := ParseInt64(rec.barcode);
      if barcode.None? {
        return None;
      }
      var patient := FindOrCreatePatientIn(patientId.value, rec);
      if patient.Failure? {
        return Some(patient.error);
      }
      var sample := FindOrCreateSampleIn(barcode.value, patient.value, rec);
      if sample.Failure? {
        return Some(sample.error);
      }
      err := UpsertResultIn(sample.value, rec);
    }

    /** SaveChangesAsync: everything staged is written, and the context has nothing pending. */
    method SaveChanges()
      modifies this
      ensures db == Commit(old(db), old(Pending()))
      ensures Pending() == Initial(db)
    {
      db := Commit(db, Pending());
      patients, samples, results := [], [], [];
    }

    /**
     * ProcessAndSaveDataAsync: the loop over the records, then one save. An exception stops
     * the loop and skips the save, leaving the database as it was and the context as the
     * exception found it.
     */
    method ProcessAndSaveData(records: seq<LabData>) returns (err: Option<WriteError>)
      modifies this
      ensures err == Run(old(db), old(Pending()), records, rules).error
      ensures db == ProcessAndSave(old(db), old(Pending()), records, rules)
      ensures err.None? ==> Pending() == Initial(db)
      ensures err.Some? ==> Pending() == Run(old(db), old(Pending()), records, rules).staged
    {
      for i := 0 to |records|
        invariant db == old(db)
        invariant Run(db, old(Pending()), records[..i], rules) == Outcome(Pending(), None)
      {
        assert records[..i + 1][..i] == records[..i];
        err := ProcessRecord(records[i]);
        if err.Some? {
          RunPrefixFailure(db, old(Pending()), records, i + 1, rules);
          return;
        }
      }
      assert records[..|records|] == records;
      SaveChanges();
      err := None;
    }
  }
}
