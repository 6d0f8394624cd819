/**
 * What one turn of the writer's loop does and does not do: a record whose keys do not parse
 * changes nothing; patients and samples are created only when absent and are never modified;
 * an exception is raised only on the way to creating an entity or by the store query for an
 * existing result; a later record for the same sample and test code updates the result the
 * first one left instead of adding another.
 */
module WriterProperties {
  import opened Wrappers
  import opened Parsing
  import opened LabRecord
  import opened Entities
  import opened Reconciliation

  // ---- lookups over extended and updated sequences ----

  lemma {:induction false} FindPatientAppend(ps: seq<Patient>, qs: seq<Patient>, id: int)
    ensures FindPatient(ps + qs, id) == if FindPatient(ps, id).Some? then FindPatient(ps, id) else FindPatient(qs, id)
    decreases |ps|
  {
    if ps == [] {
      assert ps + qs == qs;
    } else {
      assert (ps + qs)[1..] == ps[1..] + qs;
      FindPatientAppend(ps[1..], qs, id);
    }
  }

  lemma {:induction false} FindSampleAppend(ss: seq<Sample>, ts: seq<Sample>, barcode: int)
    ensures FindSample(ss + ts, barcode) == if FindSample(ss, barcode).Some? then FindSample(ss, barcode) else FindSample(ts, barcode)
    decreases |ss|
  {
    if ss == [] {
      assert ss + ts == ts;
    } else {
      assert (ss + ts)[1..] == ss[1..] + ts;
      FindSampleAppend(ss[1..], ts, barcode);
    }
  }

  /** Overwriting a tracked result with one of the same sample and code does not move the lookup. */
  lemma {:induction false} FindTrackedAfterUpdate(rs: seq<TestResult>, i: nat, x: TestResult, sampleId: int, testCode: string)
    requires i < |rs| && x.sampleId == rs[i].sampleId && x.testCode == rs[i].testCode
    ensures FindTracked(rs[i := x], sampleId, testCode) == FindTracked(rs, sampleId, testCode)
    decreases i
  {
    if i > 0 {
      assert rs[i := x][1..] == rs[1..][i - 1 := x];
      FindTrackedAfterUpdate(rs[1..], i - 1, x, sampleId, testCode);
    } else {
      assert rs[i := x][1..] == rs[1..];
    }
  }

  /** With no tracked match, an appended result is found exactly when it matches. */
  lemma {:induction false} FindTrackedAfterAppend(rs: seq<TestResult>, x: TestResult, sampleId: int, testCode: string)
    requires FindTracked(rs, sampleId, testCode).None?
    ensures FindTracked(rs + [x], sampleId, testCode)
      == if x.sampleId == sampleId && x.testCode == testCode then Some(|rs|) else None
    decreases |rs|
  {
    if rs != [] {
      assert (rs + [x])[1..] == rs[1..] + [x];
      FindTrackedAfterAppend(rs[1..], x, sampleId, testCode);
    }
  }

  lemma {:induction false} IndexOfIdAfterUpdate(rs: seq<TestResult>, i: nat, x: TestResult, id: int)
    requires i < |rs| && x.id == rs[i].id
    ensures IndexOfId(rs[i := x], id) == IndexOfId(rs, id)
    decreases i
  {
    if i > 0 {
      assert rs[i := x][1..] == rs[1..][i - 1 := x];
      IndexOfIdAfterUpdate(rs[1..], i - 1, x, id);
    } else {
      assert rs[i := x][1..] == rs[1..];
    }
  }

  lemma {:induction false} IndexOfIdAfterAppend(rs: seq<TestResult>, x: TestResult, id: int)
    requires IndexOfId(rs, id).None?
    ensures IndexOfId(rs + [x], id) == if x.id == id then Some(|rs|) else None
    decreases |rs|
  {
    if rs != [] {
      assert (rs + [x])[1..] == rs[1..] + [x];
      IndexOfIdAfterAppend(rs[1..], x, id);
    }
  }

  // ---- the three phases of one record ----

  /**
   * The patient phase: it fails only for an absent patient whose date of birth does not parse;
   * it returns a patient with the id, and adds one exactly when neither the context nor the
   * database has the id.
   */
  lemma PatientPhase(db: Store, st: Staged, id: int, rec: LabData)
    ensures var r := FindOrCreatePatient(db, st, id, rec);
      && (r.Success? <==> HasPatient(st.patients, id) || HasPatient(db.patients, id) || ParseDate(rec.dob).Some?)
      && (r.Failure? ==> r.error == InvalidDateOfBirth(rec.dob))
      && (r.Success? ==>
            && r.value.entity.id == id
            && r.value.staged == st.(patients := r.value.staged.patients)
            && r.value.staged.patients ==
                 if HasPatient(st.patients, id) || HasPatient(db.patients, id) then st.patients
                 else st.patients + [Patient(id, rec.patientName, ParseDate(rec.dob).value, rec.gender)])
  {
  }

  /**
   * The sample phase: it fails only for an absent barcode whose clinic number, collection date
   * or collection time does not parse; it returns a sample with the barcode, and adds one,
   * with the next key and the patient's id, exactly when neither the context nor the database
   * has the barcode.
   */
  lemma SamplePhase(db: Store, st: Staged, barcode: int, p: Patient, rec: LabData, rules: Rules)
    ensures var r := FindOrCreateSample(db, st, barcode, p, rec, rules);
      var known := HasBarcode(st.samples, barcode) || HasBarcode(db.samples, barcode);
      && (r.Success? <==>
            (known || (ParseInt32(rec.clinicNo).Some? && ParseDate(rec.collectionDate).Some?
                       && ParseCollectionTime(rules, rec.collectionTime).Some?)))
      && (r.Failure? ==>
            r.error == if ParseInt32(rec.clinicNo).None? then InvalidClinicNo(rec.clinicNo)
                       else if ParseDate(rec.collectionDate).None? then InvalidCollectionDate(rec.collectionDate)
                       else InvalidCollectionTime(rec.collectionTime))
      && (r.Success? && known ==>
            r.value.staged == st && r.value.entity.barcode == barcode
            && (r.value.entity in st.samples || r.value.entity in db.samples))
      && (r.Success? && !known ==>
            var s := Sample(st.sampleSeq + 1, barcode, ParseInt32(rec.clinicNo).value, ParseDate(rec.collectionDate).value,
                            ParseCollectionTime(rules, rec.collectionTime).value, p.id);
            r.value.entity == s && r.value.staged == st.(samples := st.samples + [s], sampleSeq := st.sampleSeq + 1))
  {
  }

  /**
   * The result phase touches only results: each tracked one is kept or overwritten from the
   * record, at most one is added, and it fails, changing nothing, only when the store query
   * matches more than one stored result.
   */
  lemma UpsertPhase(db: Store, st: Staged, sample: Sample, rec: LabData, rules: Rules)
    ensures var o := UpsertResult(db, st, sample, rec, rules);
      && o.staged == st.(results := o.staged.results, resultSeq := o.staged.resultSeq)
      && |st.results| <= |o.staged.results| <= |st.results| + 1
      && (forall k :: 0 <= k < |st.results| ==>
            o.staged.results[k] == st.results[k] || o.staged.results[k] == Updated(st.results[k], rec))
      && (o.error.Some? ==>
            o.staged == st && o.error == Some(MoreThanOneStoredResult(rec.testCode))
            && |StoredMatches(db.results, rules, sample.id, rec.testCode)| > 1)
  {
  }

  // ---- one record ----

  /** A record whose PatientId is not an int or whose Barcode is not a long adds and changes nothing. */
  lemma SkipsUnparsableKeys(db: Store, st: Staged, rec: LabData, rules: Rules)
    requires ParseInt32(rec.patientId).None? || ParseInt64(rec.barcode).None?
    ensures Step(db, st, rec, rules) == Outcome(st, None)
  {
  }

  /**
   * The context only grows: the patients and samples it held stay as they were, at most one of
   * each is added, and every result it tracked is kept or overwritten from the record.
   */
  lemma StepKeepsExisting(db: Store, st: Staged, rec: LabData, rules: Rules)
    ensures var o := Step(db, st, rec, rules).staged;
      && |st.patients| <= |o.patients| <= |st.patients| + 1 && o.patients[..|st.patients|] == st.patients
      && |st.samples| <= |o.samples| <= |st.samples| + 1 && o.samples[..|st.samples|] == st.samples
      && |st.results| <= |o.results| <= |st.results| + 1
      && forall k :: 0 <= k < |st.results| ==> o.results[k] == st.results[k] || o.results[k] == Updated(st.results[k], rec)
  {
    if ParseInt32(rec.patientId).Some? && ParseInt64(rec.barcode).Some? {
      var id, barcode := ParseInt32(rec.patientId).value, ParseInt64(rec.barcode).value;
      var p := FindOrCreatePatient(db, st, id, rec);
      PatientPhase(db, st, id, rec);
      if p.Success? {
        var s := FindOrCreateSample(db, p.value.staged, barcode, p.value.entity, rec, rules);
        SamplePhase(db, p.value.staged, barcode, p.value.entity, rec, rules);
        if s.Success? {
          UpsertPhase(db, s.value.staged, s.value.entity, rec, rules);
          assert Step(db, st, rec, rules) == UpsertResult(db, s.value.staged, s.value.entity, rec, rules);
        } else {
          assert Step(db, st, rec, rules).staged == p.value.staged;
        }
      }
    }
  }

  /**
   * A patient is added exactly when both keys parse, neither the context nor the database has
   * the id, and the date of birth parses; the new patient carries the id and the record's name,
   * date of birth and gender.
   */
  lemma PatientCreatedOnlyWhenAbsent(db: Store, st: Staged, rec: LabData, rules: Rules)
    ensures |Step(db, st, rec, rules).staged.patients| > |st.patients| <==>
      && ParseInt32(rec.patientId).Some? && ParseInt64(rec.barcode).Some?
      && !HasPatient(st.patients, ParseInt32(rec.patientId).value)
      && !HasPatient(db.patients, ParseInt32(rec.patientId).value)
      && ParseDate(rec.dob).Some?
  {
    if ParseInt32(rec.patientId).Some? && ParseInt64(rec.barcode).Some? {
      var id, barcode := ParseInt32(rec.patientId).value, ParseInt64(rec.barcode).value;
      var p := FindOrCreatePatient(db, st, id, rec);
      PatientPhase(db, st, id, rec);
      if p.Success? {
        var s := FindOrCreateSample(db, p.value.staged, barcode, p.value.entity, rec, rules);
        SamplePhase(db, p.value.staged, barcode, p.value.entity, rec, rules);
        if s.Success? {
          UpsertPhase(db, s.value.staged, s.value.entity, rec, rules);
          assert Step(db, st, rec, rules) == UpsertResult(db, s.value.staged, s.value.entity, rec, rules);
        } else {
          assert Step(db, st, rec, rules).staged == p.value.staged;
        }
        assert Step(db, st, rec, rules).staged.patients == p.value.staged.patients;
      } else {
        assert Step(db, st, rec, rules).staged == st;
      }
    }
  }

  /** The added patient: the parsed id and the record's name, date of birth and gender. */
  lemma NewPatientFields(db: Store, st: Staged, rec: LabData, rules: Rules)
    requires |Step(db, st, rec, rules).staged.patients| > |st.patients|
    ensures ParseInt32(rec.patientId).Some? && ParseDate(rec.dob).Some?
    ensures Step(db, st, rec, rules).staged.patients
      == st.patients + [Patient(ParseInt32(rec.patientId).value, rec.patientName, ParseDate(rec.dob).value, rec.gender)]
  {
    PatientCreatedOnlyWhenAbsent(db, st, rec, rules);
    var id, barcode := ParseInt32(rec.patientId).value, ParseInt64(rec.barcode).value;
    PatientPhase(db, st, id, rec);
    var p := FindOrCreatePatient(db, st, id, rec).value;
    SamplePhase(db, p.staged, barcode, p.entity, rec, rules);
    var s := FindOrCreateSample(db, p.staged, barcode, p.entity, rec, rules);
    if s.Success? {
      UpsertPhase(db, s.value.staged, s.value.entity, rec, rules);
      assert Step(db, st, rec, rules) == UpsertResult(db, s.value.staged, s.value.entity, rec, rules);
    } else {
      assert Step(db, st, rec, rules).staged == p.staged;
    }
  }

  /**
   * A sample is added exactly when both keys parse, the patient is found or made, neither the
   * context nor the database has the barcode, and the clinic number, collection date and
   * collection time parse; the new sample takes the next key and is linked to the patient.
   */
  lemma SampleCreatedOnlyWhenAbsent(db: Store, st: Staged, rec: LabData, rules: Rules)
    ensures |Step(db, st, rec, rules).staged.samples| > |st.samples| <==>
      && ParseInt32(rec.patientId).Some? && ParseInt64(rec.barcode).Some?
      && (HasPatient(st.patients, ParseInt32(rec.patientId).value)
          || HasPatient(db.patients, ParseInt32(rec.patientId).value) || ParseDate(rec.dob).Some?)
      && !HasBarcode(st.samples, ParseInt64(rec.barcode).value)
      && !HasBarcode(db.samples, ParseInt64(rec.barcode).value)
      && ParseInt32(rec.clinicNo).Some? && ParseDate(rec.collectionDate).Some?
      && ParseCollectionTime(rules, rec.collectionTime).Some?
  {
    if ParseInt32(rec.patientId).Some? && ParseInt64(rec.barcode).Some? {
      var id, barcode := ParseInt32(rec.patientId).value, ParseInt64(rec.barcode).value;
      var p := FindOrCreatePatient(db, st, id, rec);
      PatientPhase(db, st, id, rec);
      if p.Success? {
        var s := FindOrCreateSample(db, p.value.staged, barcode, p.value.entity, rec, rules);
        SamplePhase(db, p.value.staged, barcode, p.value.entity, rec, rules);
        if s.Success? {
          UpsertPhase(db, s.value.staged, s.value.entity, rec, rules);
          assert Step(db, st, rec, rules) == UpsertResult(db, s.value.staged, s.value.entity, rec, rules);
        } else {
          assert Step(db, st, rec, rules).staged == p.value.staged;
        }
      } else {
        assert Step(db, st, rec, rules).staged == st;
      }
    }
  }

  /** The added sample: the next key, the barcode, the parsed clinic number, date and time, and the patient's id. */
  lemma NewSampleFields(db: Store, st: Staged, rec: LabData, rules: Rules)
    requires |Step(db, st, rec, rules).staged.samples| > |st.samples|
    ensures ParseInt32(rec.patientId).Some? && ParseInt64(rec.barcode).Some?
    ensures ParseInt32(rec.clinicNo).Some? && ParseDate(rec.collectionDate).Some?
    ensures ParseCollectionTime(rules, rec.collectionTime).Some?
    ensures
      && Step(db, st, rec, rules).staged.samples == st.samples + [Sample(
           st.sampleSeq + 1, ParseInt64(rec.barcode).value, ParseInt32(rec.clinicNo).value,
           ParseDate(rec.collectionDate).value, ParseCollectionTime(rules, rec.collectionTime).value,
           ParseInt32(rec.patientId).value)]
      && Step(db, st, rec, rules).staged.sampleSeq == st.sampleSeq + 1
  {
    SampleCreatedOnlyWhenAbsent(db, st, rec, rules);
    var id, barcode := ParseInt32(rec.patientId).value, ParseInt64(rec.barcode).value;
    PatientPhase(db, st, id, rec);
    var p := FindOrCreatePatient(db, st, id, rec).value;
    assert p.staged.samples == st.samples && p.staged.sampleSeq == st.sampleSeq && p.entity.id == id;
    SamplePhase(db, p.staged, barcode, p.entity, rec, rules);
    var s := FindOrCreateSample(db, p.staged, barcode, p.entity, rec, rules).value;
    var made := Sample(
      st.sampleSeq + 1, barcode, ParseInt32(rec.clinicNo).value, ParseDate(rec.collectionDate).value,
      ParseCollectionTime(rules, rec.collectionTime).value, id);
    assert s.staged.samples == st.samples + [made] && s.staged.sampleSeq == st.sampleSeq + 1;
    UpsertPhase(db, s.staged, s.entity, rec, rules);
    assert Step(db, st, rec, rules) == UpsertResult(db, s.staged, s.entity, rec, rules);
  }

  /**
   * An exception is raised only with both keys parsed, and only on the way to creating an
   * entity (the date of birth of a new patient; the clinic number, collection date or time of a
   * new sample) or when the store query matches more than one stored result. The context's
   * results are then as they were.
   */
  lemma AbortOnlyWhenCreating(db: Store, st: Staged, rec: LabData, rules: Rules)
    requires Step(db, st, rec, rules).error.Some?
    ensures ParseInt32(rec.patientId).Some? && ParseInt64(rec.barcode).Some?
    ensures Step(db, st, rec, rules).staged.results == st.results
    ensures var e, id := Step(db, st, rec, rules).error.value, ParseInt32(rec.patientId).value;
      e.InvalidDateOfBirth? ==>
        e.dob == rec.dob && !HasPatient(st.patients, id) && !HasPatient(db.patients, id) && ParseDate(rec.dob).None?
    ensures var e, barcode := Step(db, st, rec, rules).error.value, ParseInt64(rec.barcode).value;
      (e.InvalidClinicNo? || e.InvalidCollectionDate? || e.InvalidCollectionTime?) ==>
        !HasBarcode(st.samples, barcode) && !HasBarcode(db.samples, barcode)
    ensures var e := Step(db, st, rec, rules).error.value;
      && (e.InvalidClinicNo? ==> e.clinicNo == rec.clinicNo && ParseInt32(rec.clinicNo).None?)
      && (e.InvalidCollectionDate? ==> e.collectionDate == rec.collectionDate && ParseDate(rec.collectionDate).None?)
      && (e.InvalidCollectionTime? ==>
            e.collectionTime == rec.collectionTime && ParseCollectionTime(rules, rec.collectionTime).None?)
    ensures var e := Step(db, st, rec, rules).error.value;
      e.MoreThanOneStoredResult? ==>
        e.testCode == rec.testCode && exists sampleId :: |StoredMatches(db.results, rules, sampleId, rec.testCode)| > 1
  {
    assert ParseInt32(rec.patientId).Some? && ParseInt64(rec.barcode).Some?;
    var id, barcode := ParseInt32(rec.patientId).value, ParseInt64(rec.barcode).value;
    var p := FindOrCreatePatient(db, st, id, rec);
    PatientPhase(db, st, id, rec);
    if p.Success? {
      var s := FindOrCreateSample(db, p.value.staged, barcode, p.value.entity, rec, rules);
      SamplePhase(db, p.value.staged, barcode, p.value.entity, rec, rules);
      if s.Success? {
        UpsertPhase(db, s.value.staged, s.value.entity, rec, rules);
        assert Step(db, st, rec, rules) == UpsertResult(db, s.value.staged, s.value.entity, rec, rules);
        assert |StoredMatches(db.results, rules, s.value.entity.id, rec.testCode)| > 1;
      } else {
        assert Step(db, st, rec, rules) == Outcome(p.value.staged, Some(s.error));
      }
    } else {
      assert Step(db, st, rec, rules) == Outcome(st, Some(p.error));
    }
  }

  // ---- a second record for the same sample and test code ----

  /** Overwriting twice from records keeps only the second one's fields. */
  lemma UpdatedTwice(r: TestResult, first: LabData, second: LabData)
    ensures Updated(Updated(r, first), second) == Updated(r, second)
  {
  }

  /** The patient lookup finds the patient again in any context holding the patients it left. */
  lemma PatientFoundAgain(db: Store, st: Staged, id: int, rec: LabData, v: Staged, rec2: LabData)
    requires FindOrCreatePatient(db, st, id, rec).Success?
    requires v.patients == FindOrCreatePatient(db, st, id, rec).value.staged.patients
    ensures FindOrCreatePatient(db, v, id, rec2).Success? && FindOrCreatePatient(db, v, id, rec2).value.staged == v
  {
    if FindPatient(st.patients, id).None? && FindPatient(db.patients, id).None? {
      var p := FindOrCreatePatient(db, st, id, rec).value.entity;
      FindPatientAppend(st.patients, [p], id);
    }
  }

  /** The sample lookup finds the same sample again in any context holding the samples it left. */
  lemma SampleFoundAgain(
    db: Store, st: Staged, barcode: int, p: Patient, rec: LabData, rules: Rules, v: Staged, p2: Patient, rec2: LabData)
    requires FindOrCreateSample(db, st, barcode, p, rec, rules).Success?
    requires v.samples == FindOrCreateSample(db, st, barcode, p, rec, rules).value.staged.samples
    ensures FindOrCreateSample(db, v, barcode, p2, rec2, rules)
      == Success(Resolved(FindOrCreateSample(db, st, barcode, p, rec, rules).value.entity, v))
  {
    if FindSample(st.samples, barcode).None? && FindSample(db.samples, barcode).None? {
      var s := FindOrCreateSample(db, st, barcode, p, rec, rules).value.entity;
      FindSampleAppend(st.samples, [s], barcode);
    }
  }

  /** Where the result phase writes: the tracked match, else the tracked copy of the one stored match, else the end. */
  function WrittenIndex(db: Store, u: Staged, s: Sample, rec: LabData, rules: Rules): nat {
    match FindTracked(u.results, s.id, rec.testCode)
    case Some(i) => i
    case None =>
      var matches := StoredMatches(db.results, rules, s.id, rec.testCode);
      if |matches| == 1 && IndexOfId(u.results, matches[0].id).Some? then IndexOfId(u.results, matches[0].id).value
      else |u.results|
  }

  /** What the second record does when the first found a tracked result of the sample. */
  lemma UpsertAgainTracked(db: Store, u: Staged, s: Sample, rec: LabData, rec2: LabData, rules: Rules)
    requires FindTracked(u.results, s.id, rec.testCode).Some?
    requires rec2.testCode == rec.testCode
    ensures var v, k := UpsertResult(db, u, s, rec, rules).staged, WrittenIndex(db, u, s, rec, rules);
      && k < |v.results| && Updated(v.results[k], rec) == v.results[k]
      && UpsertResult(db, v, s, rec2, rules) == Outcome(v.(results := v.results[k := Updated(v.results[k], rec2)]), None)
  {
    var i := FindTracked(u.results, s.id, rec.testCode).value;
    FindTrackedAfterUpdate(u.results, i, Updated(u.results[i], rec), s.id, rec.testCode);
    UpdatedTwice(u.results[i], rec, rec);
  }

  /** What the second record does when the first updated the context's copy of the one stored match. */
  lemma UpsertAgainStoredTracked(db: Store, u: Staged, s: Sample, rec: LabData, rec2: LabData, rules: Rules)
    requires FindTracked(u.results, s.id, rec.testCode).None?
    requires |StoredMatches(db.results, rules, s.id, rec.testCode)| == 1
    requires IndexOfId(u.results, StoredMatches(db.results, rules, s.id, rec.testCode)[0].id).Some?
    requires rec2.testCode == rec.testCode
    ensures var v, k := UpsertResult(db, u, s, rec, rules).staged, WrittenIndex(db, u, s, rec, rules);
      && k < |v.results| && Updated(v.results[k], rec) == v.results[k]
      && UpsertResult(db, v, s, rec2, rules) == Outcome(v.(results := v.results[k := Updated(v.results[k], rec2)]), None)
  {
    var m := StoredMatches(db.results, rules, s.id, rec.testCode)[0];
    var j := IndexOfId(u.results, m.id).value;
    FindTrackedAfterUpdate(u.results, j, Updated(u.results[j], rec), s.id, rec.testCode);
    IndexOfIdAfterUpdate(u.results, j, Updated(u.results[j], rec), m.id);
    UpdatedTwice(u.results[j], rec, rec);
  }

  /** What the second record does when the first added the updated stored match to the context. */
  lemma UpsertAgainStoredAdded(db: Store, u: Staged, s: Sample, rec: LabData, rec2: LabData, rules: Rules)
    requires FindTracked(u.results, s.id, rec.testCode).None?
    requires |StoredMatches(db.results, rules, s.id, rec.testCode)| == 1
    requires IndexOfId(u.results, StoredMatches(db.results, rules, s.id, rec.testCode)[0].id).None?
    requires rec2.testCode == rec.testCode
    ensures var v, k := UpsertResult(db, u, s, rec, rules).staged, WrittenIndex(db, u, s, rec, rules);
      && k < |v.results| && Updated(v.results[k], rec) == v.results[k]
      && UpsertResult(db, v, s, rec2, rules) == Outcome(v.(results := v.results[k := Updated(v.results[k], rec2)]), None)
  {
    var m := StoredMatches(db.results, rules, s.id, rec.testCode)[0];
    var x := Updated(m, rec);
    FindTrackedAfterAppend(u.results, x, s.id, rec.testCode);
    IndexOfIdAfterAppend(u.results, x, m.id);
    UpdatedTwice(m, rec, rec);
  }

  /** What the second record does when the first created the result. */
  lemma UpsertAgainCreated(db: Store, u: Staged, s: Sample, rec: LabData, rec2: LabData, rules: Rules)
    requires FindTracked(u.results, s.id, rec.testCode).None?
    requires |StoredMatches(db.results, rules, s.id, rec.testCode)| == 0
    requires rec2.testCode == rec.testCode
    ensures var v, k := UpsertResult(db, u, s, rec, rules).staged, WrittenIndex(db, u, s, rec, rules);
      && k < |v.results| && Updated(v.results[k], rec) == v.results[k]
      && UpsertResult(db, v, s, rec2, rules) == Outcome(v.(results := v.results[k := Updated(v.results[k], rec2)]), None)
  {
    var c := Created(rec, u.resultSeq + 1, s.id);
    var v := u.(results := u.results + [c], resultSeq := u.resultSeq + 1);
    var k := |u.results|;
    assert UpsertResult(db, u, s, rec, rules) == Outcome(v, None);
    assert WrittenIndex(db, u, s, rec, rules) == k;
    assert v.results[k] == c;
    assert FindTracked(v.results, s.id, rec2.testCode) == Some(k) by {
      FindTrackedAfterAppend(u.results, c, s.id, rec.testCode);
    }
    assert UpsertResult(db, v, s, rec2, rules) == Outcome(v.(results := v.results[k := Updated(c, rec2)]), None);
    UpdatedCreated(rec, u.resultSeq + 1, s.id);
  }

  /** A result just created from a record is unchanged by an update from the same record. */
  lemma UpdatedCreated(rec: LabData, id: int, sampleId: int)
    ensures Updated(Created(rec, id, sampleId), rec) == Created(rec, id, sampleId)
  {
  }

  /** The result half: the second record overwrites the result the first one updated or added. */
  lemma UpsertAgain(db: Store, u: Staged, s: Sample, rec: LabData, rec2: LabData, rules: Rules)
    requires UpsertResult(db, u, s, rec, rules).error.None?
    requires rec2.testCode == rec.testCode
    ensures var v, k := UpsertResult(db, u, s, rec, rules).staged, WrittenIndex(db, u, s, rec, rules);
      && k < |v.results| && Updated(v.results[k], rec) == v.results[k]
      && UpsertResult(db, v, s, rec2, rules) == Outcome(v.(results := v.results[k := Updated(v.results[k], rec2)]), None)
  {
    var matches := StoredMatches(db.results, rules, s.id, rec.testCode);
    if FindTracked(u.results, s.id, rec.testCode).Some? {
      UpsertAgainTracked(db, u, s, rec, rec2, rules);
    } else if |matches| == 0 {
      UpsertAgainCreated(db, u, s, rec, rec2, rules);
    } else if IndexOfId(u.results, matches[0].id).Some? {
      UpsertAgainStoredTracked(db, u, s, rec, rec2, rules);
    } else {
      UpsertAgainStoredAdded(db, u, s, rec, rec2, rules);
    }
  }

  /**
   * After a record is processed, a later record with the same patient id, barcode and test code
   * adds no patient, sample or result: it overwrites, from its own fields, one result that
   * already holds the first record's fields.
   */
  lemma SameKeysUpdateInPlace(db: Store, st: Staged, rec: LabData, rec2: LabData, rules: Rules)
    requires ParseInt32(rec.patientId).Some? && ParseInt64(rec.barcode).Some?
    requires Step(db, st, rec, rules).error.None?
    requires ParseInt32(rec2.patientId) == ParseInt32(rec.patientId) && ParseInt64(rec2.barcode) == ParseInt64(rec.barcode)
    requires rec2.testCode == rec.testCode
    ensures var v := Step(db, st, rec, rules).staged;
      exists k :: 0 <= k < |v.results| && Updated(v.results[k], rec) == v.results[k]
        && Step(db, v, rec2, rules) == Outcome(v.(results := v.results[k := Updated(v.results[k], rec2)]), None)
  {
    var id, barcode := ParseInt32(rec.patientId).value, ParseInt64(rec.barcode).value;
    var p := FindOrCreatePatient(db, st, id, rec).value;
    var s := FindOrCreateSample(db, p.staged, barcode, p.entity, rec, rules).value;
    UpsertPhase(db, s.staged, s.entity, rec, rules);
    var v := UpsertResult(db, s.staged, s.entity, rec, rules).staged;
    assert Step(db, st, rec, rules).staged == v;
    PatientFoundAgain(db, st, id, rec, v, rec2);
    var p2 := FindOrCreatePatient(db, v, id, rec2).value;
    SampleFoundAgain(db, p.staged, barcode, p.entity, rec, rules, v, p2.entity, rec2);
    assert Step(db, v, rec2, rules) == UpsertResult(db, v, s.entity, rec2, rules);
    UpsertAgain(db, s.staged, s.entity, rec, rec2, rules);
    var k := WrittenIndex(db, s.staged, s.entity, rec, rules);
    assert 0 <= k < |v.results| && Updated(v.results[k], rec) == v.results[k]
      && Step(db, v, rec2, rules) == Outcome(v.(results := v.results[k := Updated(v.results[k], rec2)]), None);
  }

  /** Processing the same record twice leaves the context as processing it once did. */
  lemma RepeatedRecordChangesNothing(db: Store, st: Staged, rec: LabData, rules: Rules)
    requires Step(db, st, rec, rules).error.None?
    ensures Step(db, Step(db, st, rec, rules).staged, rec, rules) == Outcome(Step(db, st, rec, rules).staged, None)
  {
    if ParseInt32(rec.patientId).Some? && ParseInt64(rec.barcode).Some? {
      var v := Step(db, st, rec, rules).staged;
      SameKeysUpdateInPlace(db, st, rec, rec, rules);
      var k :| 0 <= k < |v.results| && Updated(v.results[k], rec) == v.results[k]
        && Step(db, v, rec, rules) == Outcome(v.(results := v.results[k := Updated(v.results[k], rec)]), None);
      assert v.results[k := v.results[k]] == v.results;
    }
  }
}
