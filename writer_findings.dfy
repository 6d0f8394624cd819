/**
 * The writer's two defects, each shown on the code as written and paired with the corrected
 * reading: the store query for an existing result ignores the sample, and the collection time
 * is read on the 12-hour clock.
 */
module WriterFindings {
  import opened Wrappers
  import opened Parsing
  import opened LabRecord
  import opened Entities
  import opened Reconciliation
  import opened WriterProperties
  import opened WriterInvariants

  // ---- the store query ignores the sample ----

  /** A run over one record is that record's turn. */
  lemma RunOne(db: Store, st: Staged, rec: LabData, rules: Rules)
    ensures Run(db, st, [rec], rules) == Step(db, st, rec, rules)
  {
    assert [rec][..0] == [];
  }

  /** A batch of one record that raises nothing saves what that record's turn staged. */
  lemma SaveOne(db: Store, rec: LabData, rules: Rules)
    requires Step(db, Initial(db), rec, rules).error.None?
    ensures ProcessAndSave(db, Initial(db), [rec], rules) == Commit(db, Step(db, Initial(db), rec, rules).staged)
  {
    RunOne(db, Initial(db), rec, rules);
  }

  /** A record whose patient is stored and whose barcode is stored (and not added) goes straight to the result phase with that sample. */
  lemma StepOnStoredSample(db: Store, st: Staged, rec: LabData, rules: Rules, s: Sample)
    requires ParseInt32(rec.patientId).Some? && ParseInt64(rec.barcode).Some?
    requires HasPatient(db.patients, ParseInt32(rec.patientId).value)
    requires FindSample(st.samples, ParseInt64(rec.barcode).value).None?
    requires FindSample(db.samples, ParseInt64(rec.barcode).value) == Some(s)
    ensures Step(db, st, rec, rules) == UpsertResult(db, st, s, rec, rules)
  {
    var id, barcode := ParseInt32(rec.patientId).value, ParseInt64(rec.barcode).value;
    PatientPhase(db, st, id, rec);
    var p := FindOrCreatePatient(db, st, id, rec).value;
    assert p.staged == st;
    assert FindOrCreateSample(db, st, barcode, p.entity, rec, rules) == Success(Resolved(s, st));
  }

  /**
   * As written: with two samples stored and one result of the first one, a record for the
   * second sample with the same test code overwrites the first sample's result, and the save
   * writes it so; the second sample gets no result.
   */
  lemma StoreFallbackCrossesSamples(
    rec: LabData, p: Patient, a: Sample, b: Sample, r: TestResult, sampleSeq: int, resultSeq: int)
    requires ParseInt32(rec.patientId) == Some(p.id) && ParseInt64(rec.barcode) == Some(b.barcode)
    requires a.barcode != b.barcode
    requires r.sampleId == a.id && r.testCode == rec.testCode
    ensures var db := Store([p], [a, b], [r], sampleSeq, resultSeq);
      && Step(db, Initial(db), rec, AsWritten) == Outcome(Initial(db).(results := [Updated(r, rec)]), None)
      && ProcessAndSave(db, Initial(db), [rec], AsWritten).results == [Updated(r, rec)]
      && Updated(r, rec).sampleId == a.id
  {
    var db := Store([p], [a, b], [r], sampleSeq, resultSeq);
    assert db.patients[0].id == p.id;
    assert FindSample([a, b], b.barcode) == Some(b);
    StepOnStoredSample(db, Initial(db), rec, AsWritten, b);
    assert StoredMatches([r], AsWritten, b.id, rec.testCode) == [r];
    var x := Updated(r, rec);
    assert Step(db, Initial(db), rec, AsWritten) == Outcome(Initial(db).(results := [x]), None);
    SaveOne(db, rec, AsWritten);
    assert IndexOfId([x], r.id) == Some(0);
    assert IndexOfId([r], x.id) == Some(0);
    assert SavedRows([r], [x]) == [x];
    assert AddedRows([r], [x]) == [];
  }

  /** Corrected, the same record adds a result to its own sample. */
  lemma CorrectedQueryKeepsSamplesApart(
    rec: LabData, p: Patient, a: Sample, b: Sample, r: TestResult, sampleSeq: int, resultSeq: int)
    requires ParseInt32(rec.patientId) == Some(p.id) && ParseInt64(rec.barcode) == Some(b.barcode)
    requires a.barcode != b.barcode && a.id != b.id
    requires r.sampleId == a.id && r.testCode == rec.testCode
    ensures var db := Store([p], [a, b], [r], sampleSeq, resultSeq);
      Step(db, Initial(db), rec, Corrected)
        == Outcome(Initial(db).(results := [Created(rec, resultSeq + 1, b.id)], resultSeq := resultSeq + 1), None)
  {
    var db := Store([p], [a, b], [r], sampleSeq, resultSeq);
    assert db.patients[0].id == p.id;
    assert FindSample([a, b], b.barcode) == Some(b);
    StepOnStoredSample(db, Initial(db), rec, Corrected, b);
    assert StoredMatches([r], Corrected, b.id, rec.testCode) == [];
  }

  /** Corrected, the save adds that result and keeps the first sample's result as it was. */
  lemma CorrectedSaveKeepsOtherResult(
    rec: LabData, p: Patient, a: Sample, b: Sample, r: TestResult, sampleSeq: int, resultSeq: int)
    requires ParseInt32(rec.patientId) == Some(p.id) && ParseInt64(rec.barcode) == Some(b.barcode)
    requires a.barcode != b.barcode && a.id != b.id
    requires r.sampleId == a.id && r.testCode == rec.testCode && r.id <= resultSeq
    ensures var db := Store([p], [a, b], [r], sampleSeq, resultSeq);
      ProcessAndSave(db, Initial(db), [rec], Corrected).results == [r, Created(rec, resultSeq + 1, b.id)]
  {
    var db := Store([p], [a, b], [r], sampleSeq, resultSeq);
    CorrectedQueryKeepsSamplesApart(rec, p, a, b, r, sampleSeq, resultSeq);
    SaveOne(db, rec, Corrected);
    var c := Created(rec, resultSeq + 1, b.id);
    assert IndexOfId([c], r.id) == None;
    assert IndexOfId([r], c.id) == None;
    assert SavedRows([r], [c]) == [r];
    assert AddedRows([r], [c]) == [c];
  }

  /**
   * As written: when two stored results of other samples share the record's test code, the
   * query's SingleOrDefault throws and nothing is saved.
   */
  lemma StoreFallbackThrowsOnSharedCode(
    rec: LabData, p: Patient, a: Sample, b: Sample, c: Sample, r1: TestResult, r2: TestResult,
    sampleSeq: int, resultSeq: int)
    requires ParseInt32(rec.patientId) == Some(p.id) && ParseInt64(rec.barcode) == Some(b.barcode)
    requires a.barcode != b.barcode && c.barcode != b.barcode
    requires r1.sampleId == a.id && r2.sampleId == c.id && r1.testCode == rec.testCode && r2.testCode == rec.testCode
    ensures var db := Store([p], [a, b, c], [r1, r2], sampleSeq, resultSeq);
      && Step(db, Initial(db), rec, AsWritten).error == Some(MoreThanOneStoredResult(rec.testCode))
      && ProcessAndSave(db, Initial(db), [rec], AsWritten) == db
  {
    var db := Store([p], [a, b, c], [r1, r2], sampleSeq, resultSeq);
    assert db.patients[0].id == p.id;
    assert FindSample([a, b, c], b.barcode) == Some(b);
    StepOnStoredSample(db, Initial(db), rec, AsWritten, b);
    assert StoredMatches([r1, r2], AsWritten, b.id, rec.testCode) == [r1, r2];
    RunOne(db, Initial(db), rec, AsWritten);
  }

  /** Corrected, the same record adds a result to its own sample instead of throwing. */
  lemma CorrectedQueryIgnoresOtherSamples(
    rec: LabData, p: Patient, a: Sample, b: Sample, c: Sample, r1: TestResult, r2: TestResult,
    sampleSeq: int, resultSeq: int)
    requires ParseInt32(rec.patientId) == Some(p.id) && ParseInt64(rec.barcode) == Some(b.barcode)
    requires a.barcode != b.barcode && c.barcode != b.barcode && a.id != b.id && c.id != b.id
    requires r1.sampleId == a.id && r2.sampleId == c.id && r1.testCode == rec.testCode && r2.testCode == rec.testCode
    ensures var db := Store([p], [a, b, c], [r1, r2], sampleSeq, resultSeq);
      Step(db, Initial(db), rec, Corrected)
        == Outcome(Initial(db).(results := [Created(rec, resultSeq + 1, b.id)], resultSeq := resultSeq + 1), None)
  {
    var db := Store([p], [a, b, c], [r1, r2], sampleSeq, resultSeq);
    assert db.patients[0].id == p.id;
    assert FindSample([a, b, c], b.barcode) == Some(b);
    StepOnStoredSample(db, Initial(db), rec, Corrected, b);
    assert FindTracked(Initial(db).results, b.id, rec.testCode) == None;
    assert StoredMatches([r1, r2], Corrected, b.id, rec.testCode) == [];
  }

  /** A sample that has the given key and barcode. */
  predicate SampleWithBarcode(ss: seq<Sample>, id: int, barcode: int) {
    exists j :: 0 <= j < |ss| && ss[j].id == id && ss[j].barcode == barcode
  }

  /** Corrected, the result phase writes only results of the sample it was given. */
  lemma CorrectedUpsertWritesOwnSample(db: Store, st: Staged, sample: Sample, rec: LabData)
    requires Consistent(db, st)
    ensures var o := UpsertResult(db, st, sample, rec, Corrected).staged;
      forall k :: 0 <= k < |o.results| && (k >= |st.results| || o.results[k] != st.results[k]) ==>
        o.results[k].sampleId == sample.id
  {
    var o := UpsertResult(db, st, sample, rec, Corrected).staged;
    match FindTracked(st.results, sample.id, rec.testCode)
    case Some(i) =>
      assert o.results == st.results[i := Updated(st.results[i], rec)];
    case None =>
      var matches := StoredMatches(db.results, Corrected, sample.id, rec.testCode);
      if |matches| == 1 {
        var m := matches[0];
        assert m in db.results && m.sampleId == sample.id;
        match IndexOfId(st.results, m.id)
        case Some(j) =>
          assert false;
        case None =>
          assert o.results == st.results + [Updated(m, rec)];
      }
  }

  /** The sample the sample phase resolves carries the barcode and is stored or added. */
  lemma ResolvedSampleListed(db: Store, st: Staged, barcode: int, p: Patient, rec: LabData, rules: Rules)
    requires FindOrCreateSample(db, st, barcode, p, rec, rules).Success?
    ensures var s := FindOrCreateSample(db, st, barcode, p, rec, rules).value;
      SampleWithBarcode(db.samples + s.staged.samples, s.entity.id, barcode)
  {
    SamplePhase(db, st, barcode, p, rec, rules);
    var s := FindOrCreateSample(db, st, barcode, p, rec, rules).value;
    var all := db.samples + s.staged.samples;
    assert s.entity in all;
    var j :| 0 <= j < |all| && all[j] == s.entity;
  }

  /**
   * Corrected, once the sample is resolved, every result the record writes belongs to a
   * sample carrying the record's barcode.
   */
  lemma CorrectedSampleTurnWritesRecordSample(db: Store, st: Staged, barcode: int, p: Patient, rec: LabData)
    requires Consistent(db, st)
    requires HasPatient(db.patients + st.patients, p.id)
    requires FindOrCreateSample(db, st, barcode, p, rec, Corrected).Success?
    ensures var s := FindOrCreateSample(db, st, barcode, p, rec, Corrected).value;
      var o := UpsertResult(db, s.staged, s.entity, rec, Corrected).staged;
      forall k :: 0 <= k < |o.results| && (k >= |st.results| || o.results[k] != st.results[k]) ==>
        SampleWithBarcode(db.samples + o.samples, o.results[k].sampleId, barcode)
  {
    SamplePhase(db, st, barcode, p, rec, Corrected);
    SamplePhaseConsistent(db, st, barcode, p, rec, Corrected);
    ResolvedSampleListed(db, st, barcode, p, rec, Corrected);
    var s := FindOrCreateSample(db, st, barcode, p, rec, Corrected).value;
    UpsertPhase(db, s.staged, s.entity, rec, Corrected);
    CorrectedUpsertWritesOwnSample(db, s.staged, s.entity, rec);
  }

  /**
   * Corrected, every result a record writes, updated or added, belongs to the sample carrying
   * the record's barcode.
   */
  lemma CorrectedWritesRecordSample(db: Store, st: Staged, rec: LabData)
    requires Consistent(db, st)
    requires ParseInt32(rec.patientId).Some? && ParseInt64(rec.barcode).Some?
    ensures var o := Step(db, st, rec, Corrected).staged;
      forall k :: 0 <= k < |o.results| && (k >= |st.results| || o.results[k] != st.results[k]) ==>
        SampleWithBarcode(db.samples + o.samples, o.results[k].sampleId, ParseInt64(rec.barcode).value)
  {
    var id, barcode := ParseInt32(rec.patientId).value, ParseInt64(rec.barcode).value;
    var p := FindOrCreatePatient(db, st, id, rec);
    PatientPhase(db, st, id, rec);
    if p.Success? {
      PatientPhaseConsistent(db, st, id, rec);
      var s := FindOrCreateSample(db, p.value.staged, barcode, p.value.entity, rec, Corrected);
      SamplePhase(db, p.value.staged, barcode, p.value.entity, rec, Corrected);
      if s.Success? {
        CorrectedSampleTurnWritesRecordSample(db, p.value.staged, barcode, p.value.entity, rec);
        assert Step(db, st, rec, Corrected) == UpsertResult(db, s.value.staged, s.value.entity, rec, Corrected);
      } else {
        assert Step(db, st, rec, Corrected).staged == p.value.staged;
      }
    } else {
      assert Step(db, st, rec, Corrected).staged == st;
    }
  }

  // ---- the collection time on the 12-hour clock ----

  /**
   * As written: a record that creates a sample with an afternoon collection time written on the
   * 24-hour clock (if the files write times that way) throws, and the context is left as it was.
   */
  lemma AfternoonCollectionAborts(db: Store, st: Staged, rec: LabData, t: Time)
    requires ParseInt32(rec.patientId).Some? && ParseInt64(rec.barcode).Some?
    requires HasPatient(st.patients, ParseInt32(rec.patientId).value) || HasPatient(db.patients, ParseInt32(rec.patientId).value)
    requires !HasBarcode(st.samples, ParseInt64(rec.barcode).value) && !HasBarcode(db.samples, ParseInt64(rec.barcode).value)
    requires ParseInt32(rec.clinicNo).Some? && ParseDate(rec.collectionDate).Some?
    requires ValidTime(t) && t.hour > 12 && rec.collectionTime == FormatTime(t)
    ensures Step(db, st, rec, AsWritten) == Outcome(st, Some(InvalidCollectionTime(rec.collectionTime)))
  {
    ParseTimeHhRejectsAfternoon(t);
    var id, barcode := ParseInt32(rec.patientId).value, ParseInt64(rec.barcode).value;
    PatientPhase(db, st, id, rec);
    var p := FindOrCreatePatient(db, st, id, rec).value;
    assert p.staged == st;
    SamplePhase(db, st, barcode, p.entity, rec, AsWritten);
  }

  /** Corrected, the same record creates its sample with the collection time it carries. */
  lemma AfternoonCollectionAccepted(db: Store, st: Staged, rec: LabData, t: Time)
    requires ParseInt32(rec.patientId).Some? && ParseInt64(rec.barcode).Some?
    requires HasPatient(st.patients, ParseInt32(rec.patientId).value) || HasPatient(db.patients, ParseInt32(rec.patientId).value)
    requires !HasBarcode(st.samples, ParseInt64(rec.barcode).value) && !HasBarcode(db.samples, ParseInt64(rec.barcode).value)
    requires ParseInt32(rec.clinicNo).Some? && ParseDate(rec.collectionDate).Some?
    requires ValidTime(t) && rec.collectionTime == FormatTime(t)
    ensures Step(db, st, rec, Corrected).error != Some(InvalidCollectionTime(rec.collectionTime))
    ensures Step(db, st, rec, Corrected).staged.samples == st.samples + [Sample(
      st.sampleSeq + 1, ParseInt64(rec.barcode).value, ParseInt32(rec.clinicNo).value,
      ParseDate(rec.collectionDate).value, t, ParseInt32(rec.patientId).value)]
  {
    ParseTimeHHRoundTrip(t);
    var id, barcode := ParseInt32(rec.patientId).value, ParseInt64(rec.barcode).value;
    PatientPhase(db, st, id, rec);
    var p := FindOrCreatePatient(db, st, id, rec).value;
    assert p.staged == st;
    SamplePhase(db, st, barcode, p.entity, rec, Corrected);
    var s := FindOrCreateSample(db, st, barcode, p.entity, rec, Corrected).value;
    UpsertPhase(db, s.staged, s.entity, rec, Corrected);
    assert Step(db, st, rec, Corrected) == UpsertResult(db, s.staged, s.entity, rec, Corrected);
  }
}
