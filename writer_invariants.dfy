/**
 * The schema's constraints survive a run of the writer: starting from a well-formed database,
 * every record keeps the context consistent with it (keys and barcodes still unique, every new
 * sample linked to a known patient, every tracked result to a known sample, a tracked copy of a
 * stored result still that result), and the save then yields a well-formed database that keeps
 * every stored row in its place.
 */
module WriterInvariants {
  import opened Wrappers
  import opened Parsing
  import opened LabRecord
  import opened Entities
  import opened Reconciliation
  import opened WriterProperties

  /** Two versions of one test result: same test, same sample. */
  predicate SameIdentity(a: TestResult, b: TestResult) {
    a.id == b.id && a.testCode == b.testCode && a.testName == b.testName && a.sampleId == b.sampleId
  }

  /** Patient keys stay unique across the database and the context. */
  predicate PatientsConsistent(db: Store, st: Staged) {
    PatientIdsDistinct(db.patients + st.patients)
  }

  /**
   * Sample keys and barcodes stay unique across the database and the context, and every added
   * sample is linked to a known patient and has a key no later than the last one handed out.
   */
  predicate SamplesConsistent(db: Store, st: Staged) {
    && db.sampleSeq <= st.sampleSeq
    && SampleIdsDistinct(db.samples + st.samples)
    && BarcodesDistinct(db.samples + st.samples)
    && forall k :: 0 <= k < |st.samples| ==>
         HasPatient(db.patients + st.patients, st.samples[k].patientId) && st.samples[k].id <= st.sampleSeq
  }

  /**
   * Tracked results have unique keys no later than the last one handed out, belong to known
   * samples, and a tracked copy of a stored result is still that result.
   */
  predicate ResultsConsistent(db: Store, st: Staged) {
    && db.resultSeq <= st.resultSeq
    && ResultIdsDistinct(st.results)
    && (forall k :: 0 <= k < |st.results| ==>
          HasSample(db.samples + st.samples, st.results[k].sampleId) && st.results[k].id <= st.resultSeq)
    && (forall j, k :: 0 <= j < |st.results| && 0 <= k < |db.results| && st.results[j].id == db.results[k].id ==>
          SameIdentity(st.results[j], db.results[k]))
  }

  /** What the context keeps true of itself and the database it was opened on. */
  predicate Consistent(db: Store, st: Staged) {
    WellFormed(db) && PatientsConsistent(db, st) && SamplesConsistent(db, st) && ResultsConsistent(db, st)
  }

  // ---- membership under extension ----

  lemma HasPatientExtends(ps: seq<Patient>, qs: seq<Patient>, id: int)
    requires HasPatient(ps, id)
    ensures HasPatient(ps + qs, id)
  {
    var k :| 0 <= k < |ps| && ps[k].id == id;
    assert (ps + qs)[k] == ps[k];
  }

  lemma HasSampleExtends(ss: seq<Sample>, ts: seq<Sample>, id: int)
    requires HasSample(ss, id)
    ensures HasSample(ss + ts, id)
  {
    var k :| 0 <= k < |ss| && ss[k].id == id;
    assert (ss + ts)[k] == ss[k];
  }

  lemma HasSampleSuffix(ss: seq<Sample>, ts: seq<Sample>, id: int)
    requires HasSample(ts, id)
    ensures HasSample(ss + ts, id)
  {
    var k :| 0 <= k < |ts| && ts[k].id == id;
    assert (ss + ts)[|ss| + k] == ts[k];
  }

  lemma HasPatientSuffix(ps: seq<Patient>, qs: seq<Patient>, id: int)
    requires HasPatient(qs, id)
    ensures HasPatient(ps + qs, id)
  {
    var k :| 0 <= k < |qs| && qs[k].id == id;
    assert (ps + qs)[|ps| + k] == qs[k];
  }

  // ---- the three phases keep the context consistent ----

  /** The patient phase keeps the context consistent and returns a patient the context or the database holds. */
  lemma PatientPhaseConsistent(db: Store, st: Staged, id: int, rec: LabData)
    requires Consistent(db, st)
    requires FindOrCreatePatient(db, st, id, rec).Success?
    ensures var p := FindOrCreatePatient(db, st, id, rec).value;
      Consistent(db, p.staged) && HasPatient(db.patients + p.staged.patients, p.entity.id)
  {
    PatientPhase(db, st, id, rec);
    var p := FindOrCreatePatient(db, st, id, rec).value;
    if HasPatient(st.patients, id) {
      HasPatientSuffix(db.patients, st.patients, id);
    } else if HasPatient(db.patients, id) {
      HasPatientExtends(db.patients, st.patients, id);
    } else {
      var all := db.patients + st.patients;
      assert db.patients + p.staged.patients == all + [p.entity];
      assert (all + [p.entity])[|all|] == p.entity;
      forall k | 0 <= k < |st.samples|
        ensures HasPatient(all + [p.entity], st.samples[k].patientId)
      {
        HasPatientExtends(all, [p.entity], st.samples[k].patientId);
      }
    }
  }

  /** Adding a sample with a larger key and a new barcode keeps keys and barcodes unique. */
  lemma SampleAppendDistinct(all: seq<Sample>, x: Sample)
    requires SampleIdsDistinct(all) && BarcodesDistinct(all)
    requires forall k :: 0 <= k < |all| ==> all[k].id < x.id && all[k].barcode != x.barcode
    ensures SampleIdsDistinct(all + [x]) && BarcodesDistinct(all + [x])
  {
    var xs := all + [x];
    assert forall k :: 0 <= k < |all| ==> xs[k] == all[k];
    assert xs[|all|] == x;
  }

  /** More samples in the context keep every tracked result's sample known. */
  lemma ResultsConsistentMoreSamples(db: Store, st: Staged, x: Sample)
    requires ResultsConsistent(db, st)
    ensures ResultsConsistent(db, st.(samples := st.samples + [x], sampleSeq := st.sampleSeq + 1))
  {
    assert db.samples + (st.samples + [x]) == (db.samples + st.samples) + [x];
    forall k | 0 <= k < |st.results|
      ensures HasSample((db.samples + st.samples) + [x], st.results[k].sampleId)
    {
      HasSampleExtends(db.samples + st.samples, [x], st.results[k].sampleId);
    }
  }

  /** A new sample, with the next key, a barcode absent from both, and a known patient, keeps the samples consistent. */
  lemma SamplesConsistentAdded(db: Store, st: Staged, x: Sample)
    requires WellFormed(db) && SamplesConsistent(db, st)
    requires x.id == st.sampleSeq + 1
    requires !HasBarcode(st.samples, x.barcode) && !HasBarcode(db.samples, x.barcode)
    requires HasPatient(db.patients + st.patients, x.patientId)
    ensures SamplesConsistent(db, st.(samples := st.samples + [x], sampleSeq := st.sampleSeq + 1))
  {
    var all := db.samples + st.samples;
    forall k | 0 <= k < |all|
      ensures all[k].id < x.id && all[k].barcode != x.barcode
    {
      if k >= |db.samples| {
        assert all[k] == st.samples[k - |db.samples|];
      }
    }
    SampleAppendDistinct(all, x);
    assert db.samples + (st.samples + [x]) == all + [x];
    var ss := st.samples + [x];
    assert forall k :: 0 <= k < |st.samples| ==> ss[k] == st.samples[k];
    assert ss[|st.samples|] == x;
  }

  /** The sample phase keeps the context consistent and returns a sample the context or the database holds. */
  lemma SamplePhaseConsistent(db: Store, st: Staged, barcode: int, p: Patient, rec: LabData, rules: Rules)
    requires Consistent(db, st)
    requires HasPatient(db.patients + st.patients, p.id)
    requires FindOrCreateSample(db, st, barcode, p, rec, rules).Success?
    ensures var s := FindOrCreateSample(db, st, barcode, p, rec, rules).value;
      Consistent(db, s.staged) && HasSample(db.samples + s.staged.samples, s.entity.id)
      && s.entity.barcode == barcode
  {
    SamplePhase(db, st, barcode, p, rec, rules);
    var s := FindOrCreateSample(db, st, barcode, p, rec, rules).value;
    var all := db.samples + st.samples;
    if HasBarcode(st.samples, barcode) || HasBarcode(db.samples, barcode) {
      if s.entity in st.samples {
        var k :| 0 <= k < |st.samples| && st.samples[k] == s.entity;
        assert all[|db.samples| + k] == s.entity;
      } else {
        var k :| 0 <= k < |db.samples| && db.samples[k] == s.entity;
        assert all[k] == s.entity;
      }
    } else {
      SamplesConsistentAdded(db, st, s.entity);
      ResultsConsistentMoreSamples(db, st, s.entity);
      assert (db.samples + s.staged.samples)[|all|] == s.entity;
    }
  }

  /** Results that keep their identities one by one keep the context consistent. */
  lemma SameIdentitiesConsistent(db: Store, st: Staged, rs: seq<TestResult>)
    requires Consistent(db, st)
    requires |rs| == |st.results|
    requires forall k :: 0 <= k < |rs| ==> SameIdentity(rs[k], st.results[k])
    ensures Consistent(db, st.(results := rs))
  {
  }

  /** A result added to the context with a key no tracked result has keeps it consistent. */
  lemma AddedResultConsistent(db: Store, st: Staged, x: TestResult, resultSeq: int)
    requires Consistent(db, st)
    requires st.resultSeq <= resultSeq && x.id <= resultSeq
    requires forall k :: 0 <= k < |st.results| ==> st.results[k].id != x.id
    requires HasSample(db.samples + st.samples, x.sampleId)
    requires forall k :: 0 <= k < |db.results| && db.results[k].id == x.id ==> SameIdentity(x, db.results[k])
    ensures Consistent(db, st.(results := st.results + [x], resultSeq := resultSeq))
  {
    var rs := st.results + [x];
    assert rs[|st.results|] == x;
    assert forall k :: 0 <= k < |st.results| ==> rs[k] == st.results[k];
  }

  /**
   * What the result phase adds, when it adds: either a created result with the next key, or the
   * stored match, updated, when the context tracks no copy of it.
   */
  lemma UpsertAdds(db: Store, st: Staged, sample: Sample, rec: LabData, rules: Rules)
    ensures var o := UpsertResult(db, st, sample, rec, rules).staged;
      && (|o.results| == |st.results| ==> o.resultSeq == st.resultSeq)
      && (|o.results| == |st.results| + 1 ==>
            && o.results == st.results + [o.results[|st.results|]]
            && ((o.results[|st.results|] == Created(rec, st.resultSeq + 1, sample.id) && o.resultSeq == st.resultSeq + 1)
                || (&& o.resultSeq == st.resultSeq
                    && IndexOfId(st.results, o.results[|st.results|].id).None?
                    && exists m :: m in db.results && o.results[|st.results|] == Updated(m, rec))))
  {
    var o := UpsertResult(db, st, sample, rec, rules).staged;
    if FindTracked(st.results, sample.id, rec.testCode).None? {
      var matches := StoredMatches(db.results, rules, sample.id, rec.testCode);
      if |matches| == 1 && IndexOfId(st.results, matches[0].id).None? {
        assert matches[0] in db.results;
        assert o.results[|st.results|] == Updated(matches[0], rec);
      }
    }
  }

  /** An updated stored result added to the context keeps it consistent. */
  lemma AddedStoredConsistent(db: Store, st: Staged, m: TestResult, rec: LabData)
    requires Consistent(db, st)
    requires m in db.results && IndexOfId(st.results, Updated(m, rec).id).None?
    ensures Consistent(db, st.(results := st.results + [Updated(m, rec)]))
  {
    var km :| 0 <= km < |db.results| && db.results[km] == m;
    HasSampleExtends(db.samples, st.samples, m.sampleId);
    forall k | 0 <= k < |db.results| && db.results[k].id == m.id
      ensures SameIdentity(Updated(m, rec), db.results[k])
    {
      assert k == km;
    }
    AddedResultConsistent(db, st, Updated(m, rec), st.resultSeq);
    assert st.(results := st.results + [Updated(m, rec)], resultSeq := st.resultSeq) == st.(results := st.results + [Updated(m, rec)]);
  }

  /** A created result with the next key added to the context keeps it consistent. */
  lemma AddedCreatedConsistent(db: Store, st: Staged, rec: LabData, sampleId: int)
    requires Consistent(db, st)
    requires HasSample(db.samples + st.samples, sampleId)
    ensures Consistent(db, st.(results := st.results + [Created(rec, st.resultSeq + 1, sampleId)], resultSeq := st.resultSeq + 1))
  {
    AddedResultConsistent(db, st, Created(rec, st.resultSeq + 1, sampleId), st.resultSeq + 1);
  }

  /** The result phase keeps the context consistent. */
  lemma UpsertConsistent(db: Store, st: Staged, sample: Sample, rec: LabData, rules: Rules)
    requires Consistent(db, st)
    requires HasSample(db.samples + st.samples, sample.id)
    ensures Consistent(db, UpsertResult(db, st, sample, rec, rules).staged)
  {
    var o := UpsertResult(db, st, sample, rec, rules).staged;
    UpsertPhase(db, st, sample, rec, rules);
    UpsertAdds(db, st, sample, rec, rules);
    if |o.results| == |st.results| {
      assert o == st.(results := o.results);
      SameIdentitiesConsistent(db, st, o.results);
    } else {
      var x := o.results[|st.results|];
      if x == Created(rec, st.resultSeq + 1, sample.id) && o.resultSeq == st.resultSeq + 1 {
        AddedCreatedConsistent(db, st, rec, sample.id);
      } else {
        var m :| m in db.results && x == Updated(m, rec);
        AddedStoredConsistent(db, st, m, rec);
      }
    }
  }

  /** One record keeps the context consistent. */
  lemma StepConsistent(db: Store, st: Staged, rec: LabData, rules: Rules)
    requires Consistent(db, st)
    ensures Consistent(db, Step(db, st, rec, rules).staged)
  {
    if ParseInt32(rec.patientId).Some? && ParseInt64(rec.barcode).Some? {
      var id, barcode := ParseInt32(rec.patientId).value, ParseInt64(rec.barcode).value;
      var p := FindOrCreatePatient(db, st, id, rec);
      if p.Success? {
        PatientPhaseConsistent(db, st, id, rec);
        var s := FindOrCreateSample(db, p.value.staged, barcode, p.value.entity, rec, rules);
        if s.Success? {
          SamplePhaseConsistent(db, p.value.staged, barcode, p.value.entity, rec, rules);
          UpsertConsistent(db, s.value.staged, s.value.entity, rec, rules);
          assert Step(db, st, rec, rules) == UpsertResult(db, s.value.staged, s.value.entity, rec, rules);
        } else {
          assert Step(db, st, rec, rules).staged == p.value.staged;
        }
      } else {
        assert Step(db, st, rec, rules).staged == st;
      }
    }
  }

  /** The whole loop keeps the context consistent, wherever it stops. */
  lemma {:induction false} RunConsistent(db: Store, st: Staged, records: seq<LabData>, rules: Rules)
    requires Consistent(db, st)
    ensures Consistent(db, Run(db, st, records, rules).staged)
    decreases |records|
  {
    if records != [] {
      var front := records[..|records| - 1];
      RunConsistent(db, st, front, rules);
      var prior := Run(db, st, front, rules);
      if prior.error.None? {
        StepConsistent(db, prior.staged, records[|records| - 1], rules);
      }
    }
  }

  /** A fresh context over a well-formed database is consistent with it. */
  lemma InitialConsistent(db: Store)
    requires WellFormed(db)
    ensures Consistent(db, Initial(db))
  {
    assert db.patients + [] == db.patients;
    assert db.samples + [] == db.samples;
  }

  // ---- the save ----

  /** The added rows of tracked results with distinct keys have distinct keys. */
  lemma {:induction false} AddedRowsDistinct(rows: seq<TestResult>, tracked: seq<TestResult>)
    requires ResultIdsDistinct(tracked)
    ensures ResultIdsDistinct(AddedRows(rows, tracked))
    decreases |tracked|
  {
    if tracked != [] {
      AddedRowsDistinct(rows, tracked[1..]);
      var rest := AddedRows(rows, tracked[1..]);
      forall k | 0 <= k < |rest|
        ensures rest[k].id != tracked[0].id
      {
        assert rest[k] in tracked[1..];
      }
    }
  }

  /** The stored rows as saved keep their keys, tests and samples. */
  lemma SavedRowsSound(db: Store, st: Staged)
    requires Consistent(db, st)
    ensures var saved := SavedRows(db.results, st.results);
      forall k :: 0 <= k < |saved| ==>
        SameIdentity(saved[k], db.results[k])
        && HasSample(db.samples + st.samples, saved[k].sampleId) && saved[k].id <= st.resultSeq
  {
    var saved := SavedRows(db.results, st.results);
    forall k | 0 <= k < |saved|
      ensures SameIdentity(saved[k], db.results[k])
      ensures HasSample(db.samples + st.samples, saved[k].sampleId) && saved[k].id <= st.resultSeq
    {
      if IndexOfId(st.results, db.results[k].id).None? {
        HasSampleExtends(db.samples, st.samples, db.results[k].sampleId);
      }
    }
  }

  /** The rows to insert have unique keys that no stored row has, and belong to known samples. */
  lemma AddedRowsSound(db: Store, st: Staged)
    requires Consistent(db, st)
    ensures var added := AddedRows(db.results, st.results);
      && ResultIdsDistinct(added)
      && forall k :: 0 <= k < |added| ==>
           && HasSample(db.samples + st.samples, added[k].sampleId) && added[k].id <= st.resultSeq
           && forall j :: 0 <= j < |db.results| ==> added[k].id != db.results[j].id
  {
    var added := AddedRows(db.results, st.results);
    AddedRowsDistinct(db.results, st.results);
    forall k | 0 <= k < |added|
      ensures HasSample(db.samples + st.samples, added[k].sampleId) && added[k].id <= st.resultSeq
      ensures forall j :: 0 <= j < |db.results| ==> added[k].id != db.results[j].id
    {
      assert added[k] in st.results;
    }
  }

  /** Two rows lists with unique keys and no key in common concatenate to one with unique keys. */
  lemma ConcatIdsDistinct(a: seq<TestResult>, b: seq<TestResult>)
    requires ResultIdsDistinct(a) && ResultIdsDistinct(b)
    requires forall i, j :: 0 <= i < |a| && 0 <= j < |b| ==> a[i].id != b[j].id
    ensures ResultIdsDistinct(a + b)
  {
    var ab := a + b;
    forall i, j | 0 <= i < j < |ab|
      ensures ab[i].id != ab[j].id
    {
      if j < |a| {
        assert ab[i] == a[i] && ab[j] == a[j];
      } else if i < |a| {
        assert ab[i] == a[i] && ab[j] == b[j - |a|];
      } else {
        assert ab[i] == b[i - |a|] && ab[j] == b[j - |a|];
      }
    }
  }

  /** The saved rows followed by the added ones: keys unique, samples known, stored rows in place. */
  lemma CombinedRowsSound(
    saved: seq<TestResult>, added: seq<TestResult>, stored: seq<TestResult>, samples: seq<Sample>, last: int)
    requires |saved| == |stored| && ResultIdsDistinct(stored) && ResultIdsDistinct(added)
    requires forall k :: 0 <= k < |saved| ==>
      SameIdentity(saved[k], stored[k]) && HasSample(samples, saved[k].sampleId) && saved[k].id <= last
    requires forall k :: 0 <= k < |added| ==>
      && HasSample(samples, added[k].sampleId) && added[k].id <= last
      && forall j :: 0 <= j < |stored| ==> added[k].id != stored[j].id
    ensures var rs := saved + added;
      && ResultIdsDistinct(rs)
      && (forall k :: 0 <= k < |stored| ==> SameIdentity(rs[k], stored[k]))
      && (forall k :: 0 <= k < |rs| ==> HasSample(samples, rs[k].sampleId) && rs[k].id <= last)
  {
    ConcatIdsDistinct(saved, added);
    var rs := saved + added;
    forall k | 0 <= k < |rs|
      ensures HasSample(samples, rs[k].sampleId) && rs[k].id <= last
    {
      if k >= |saved| {
        assert rs[k] == added[k - |saved|];
      } else {
        assert rs[k] == saved[k];
      }
    }
  }

  /** The saved samples table: every sample linked to a saved patient, no key after the last one handed out. */
  lemma SavedSamplesSound(db: Store, st: Staged)
    requires Consistent(db, st)
    ensures forall k :: 0 <= k < |db.samples + st.samples| ==>
      HasPatient(db.patients + st.patients, (db.samples + st.samples)[k].patientId)
      && (db.samples + st.samples)[k].id <= st.sampleSeq
  {
    var all := db.samples + st.samples;
    forall k | 0 <= k < |all|
      ensures HasPatient(db.patients + st.patients, all[k].patientId) && all[k].id <= st.sampleSeq
    {
      if k < |db.samples| {
        assert all[k] == db.samples[k];
        HasPatientExtends(db.patients, st.patients, db.samples[k].patientId);
      } else {
        assert all[k] == st.samples[k - |db.samples|];
      }
    }
  }

  /**
   * Saving a consistent context yields a well-formed database that keeps every stored patient
   * and sample as it was and every stored result in its place with its test and sample.
   */
  lemma CommitWellFormed(db: Store, st: Staged)
    requires Consistent(db, st)
    ensures WellFormed(Commit(db, st))
    ensures Commit(db, st).patients[..|db.patients|] == db.patients
    ensures Commit(db, st).samples[..|db.samples|] == db.samples
    ensures |Commit(db, st).results| >= |db.results|
    ensures forall k :: 0 <= k < |db.results| ==> SameIdentity(Commit(db, st).results[k], db.results[k])
  {
    var saved, added := SavedRows(db.results, st.results), AddedRows(db.results, st.results);
    SavedRowsSound(db, st);
    AddedRowsSound(db, st);
    CombinedRowsSound(saved, added, db.results, db.samples + st.samples, st.resultSeq);
    SavedSamplesSound(db, st);
    assert Commit(db, st) == Store(db.patients + st.patients, db.samples + st.samples, saved + added, st.sampleSeq, st.resultSeq);
  }

  /**
   * Over a well-formed database, ProcessAndSaveDataAsync leaves a well-formed database, under
   * either reading of the writer, and keeps every stored row.
   */
  lemma SavePreservesWellFormed(db: Store, records: seq<LabData>, rules: Rules)
    requires WellFormed(db)
    ensures WellFormed(ProcessAndSave(db, Initial(db), records, rules))
    ensures ProcessAndSave(db, Initial(db), records, rules).patients[..|db.patients|] == db.patients
    ensures ProcessAndSave(db, Initial(db), records, rules).samples[..|db.samples|] == db.samples
    ensures forall k :: 0 <= k < |db.results| ==>
      k < |ProcessAndSave(db, Initial(db), records, rules).results|
      && SameIdentity(ProcessAndSave(db, Initial(db), records, rules).results[k], db.results[k])
  {
    InitialConsistent(db);
    RunConsistent(db, Initial(db), records, rules);
    var out := Run(db, Initial(db), records, rules);
    if out.error.None? {
      CommitWellFormed(db, out.staged);
    }
  }
}
