/**
 * The flat record one data line becomes (LabData): sixteen raw string fields, plus an explicit
 * table from property names to fields that stands in for the reflection the readers use.
 */
module LabRecord {
  import opened Wrappers
  import opened Text

  /** The sixteen properties of LabData. */
  datatype Field =
    | ClinicNo | Barcode | CollectionDate | CollectionTime
    | PatientId | PatientName | DOB | Gender
    | TestCode | TestName | ResultValue | Unit | RefRangeLow | RefRangeHigh | Note | NonSpecRefs

  /** One parsed data line; no value is converted at this stage. */
  datatype LabData = LabData(
    clinicNo: string, barcode: string, collectionDate: string, collectionTime: string,
    patientId: string, patientName: string, dob: string, gender: string,
    testCode: string, testName: string, result: string, unit: string,
    refRangeLow: string, refRangeHigh: string, note: string, nonSpecRefs: string)
  {
    /** The value of one property. */
    function Get(f: Field): string {
      match f
      case ClinicNo => clinicNo
      case Barcode => barcode
      case CollectionDate => collectionDate
      case CollectionTime => collectionTime
      case PatientId => patientId
      case PatientName => patientName
      case DOB => dob
      case Gender => gender
      case TestCode => testCode
      case TestName => testName
      case ResultValue => result
      case Unit => unit
      case RefRangeLow => refRangeLow
      case RefRangeHigh => refRangeHigh
      case Note => note
      case NonSpecRefs => nonSpecRefs
    }

    /** The record with one property set (PropertyInfo.SetValue). */
    function With(f: Field, v: string): (r: LabData)
      ensures r.Get(f) == v
      ensures forall g :: g != f ==> r.Get(g) == Get(g)
    {
      match f
      case ClinicNo => this.(clinicNo := v)
      case Barcode => this.(barcode := v)
      case CollectionDate => this.(collectionDate := v)
      case CollectionTime => this.(collectionTime := v)
      case PatientId => this.(patientId := v)
      case PatientName => this.(patientName := v)
      case DOB => this.(dob := v)
      case Gender => this.(gender := v)
      case TestCode => this.(testCode := v)
      case TestName => this.(testName := v)
      case ResultValue => this.(result := v)
      case Unit => this.(unit := v)
      case RefRangeLow => this.(refRangeLow := v)
      case RefRangeHigh => this.(refRangeHigh := v)
      case Note => this.(note := v)
      case NonSpecRefs => this.(nonSpecRefs := v)
    }
  }

  /** A freshly constructed LabData: every property unset, modelled as the empty string. */
  const Empty: LabData := LabData("", "", "", "", "", "", "", "", "", "", "", "", "", "", "", "")

  /** Two records with the same value in every property are the same record. */
  lemma Extensionality(a: LabData, b: LabData)
    requires forall f: Field :: a.Get(f) == b.Get(f)
    ensures a == b
  {
    assert a.Get(ClinicNo) == b.Get(ClinicNo) && a.Get(Barcode) == b.Get(Barcode);
    assert a.Get(CollectionDate) == b.Get(CollectionDate) && a.Get(CollectionTime) == b.Get(CollectionTime);
    assert a.Get(PatientId) == b.Get(PatientId) && a.Get(PatientName) == b.Get(PatientName);
    assert a.Get(DOB) == b.Get(DOB) && a.Get(Gender) == b.Get(Gender);
    assert a.Get(TestCode) == b.Get(TestCode) && a.Get(TestName) == b.Get(TestName);
    assert a.Get(ResultValue) == b.Get(ResultValue) && a.Get(Unit) == b.Get(Unit);
    assert a.Get(RefRangeLow) == b.Get(RefRangeLow) && a.Get(RefRangeHigh) == b.Get(RefRangeHigh);
    assert a.Get(Note) == b.Get(Note) && a.Get(NonSpecRefs) == b.Get(NonSpecRefs);
  }

  /** The properties in declaration order. */
  const AllFields: seq<Field> := [
    ClinicNo, Barcode, CollectionDate, CollectionTime,
    PatientId, PatientName, DOB, Gender,
    TestCode, TestName, ResultValue, Unit, RefRangeLow, RefRangeHigh, Note, NonSpecRefs]

  lemma AllFieldsComplete(f: Field)
    ensures f in AllFields
  {
  }

  /**
   * The name each property is declared with, as ToUpperInvariant renders it: GetProperty with
   * BindingFlags.IgnoreCase finds a property when the name asked for has this upper-case form.
   * The birth-date property is named DOB (see README).
   */
  function FieldKey(f: Field): string
  {
    match f
    case ClinicNo => "CLINICNO"
    case Barcode => "BARCODE"
    case CollectionDate => "COLLECTIONDATE"
    case CollectionTime => "COLLECTIONTIME"
    case PatientId => "PATIENTID"
    case PatientName => "PATIENTNAME"
    case DOB => "DOB"
    case Gender => "GENDER"
    case TestCode => "TESTCODE"
    case TestName => "TESTNAME"
    case ResultValue => "RESULT"
    case Unit => "UNIT"
    case RefRangeLow => "REFRANGELOW"
    case RefRangeHigh => "REFRANGEHIGH"
    case Note => "NOTE"
    case NonSpecRefs => "NONSPECREFS"
  }

  /** No two properties share a name, ignoring case. */
  lemma FieldKeyInjective(f: Field, g: Field)
    requires FieldKey(f) == FieldKey(g)
    ensures f == g
  {
    assert |FieldKey(f)| == |FieldKey(g)| && FieldKey(f)[0] == FieldKey(g)[0];
  }

  /** The first of fields whose upper-cased name is key, if any. */
  function FindField(key: string, fields: seq<Field>): (r: Option<Field>)
    ensures r.Some? ==> r.value in fields && FieldKey(r.value) == key
    ensures r.None? ==> forall f :: f in fields ==> FieldKey(f) != key
  {
    if fields == [] then None
    else if FieldKey(fields[0]) == key then Some(fields[0])
    else FindField(key, fields[1..])
  }

  /** The property whose upper-cased name is key, if any: a search of the declared properties. */
  function FieldWithKey(key: string): (r: Option<Field>)
    ensures r.Some? ==> FieldKey(r.value) == key
    ensures r.None? ==> forall f: Field :: FieldKey(f) != key
  {
    var r := FindField(key, AllFields);
    assert forall f: Field :: f in AllFields by {
      forall f: Field ensures f in AllFields {
        AllFieldsComplete(f);
      }
    }
    r
  }

  /** typeof(LabData).GetProperty(name, BindingFlags.IgnoreCase): the property whose name equals name ignoring case. */
  function FieldNamed(name: string): (r: Option<Field>)
    ensures r.Some? ==> FieldKey(r.value) == Upper(name)
    ensures r.None? ==> forall f: Field :: FieldKey(f) != Upper(name)
  {
    FieldWithKey(Upper(name))
  }

  /** The lookup ignores case: names equal ignoring case find the same property. */
  lemma FieldNamedIgnoresCase(a: string, b: string)
    requires EqualsIgnoreCase(a, b)
    ensures FieldNamed(a) == FieldNamed(b)
  {
  }

  /** A name whose upper-case form is a property's upper-case name finds that property and no other. */
  lemma FieldNamedKey(name: string, f: Field)
    requires Upper(name) == FieldKey(f)
    ensures FieldNamed(name) == Some(f)
  {
    if FieldNamed(name).Some? {
      FieldKeyInjective(FieldNamed(name).value, f);
    }
  }
}
