/**
 * The positional reader of the console loader (LabResults.DataLoader LabDataReader): the header
 * must list the sixteen fixed headers in their fixed order, ignoring case. Every header column is
 * first bound to the property its underscore-free name denotes, then the order is checked.
 */
module PositionalReader {
  import opened Wrappers
  import opened Text
  import opened LabRecord
  import opened LineReader
  import opened Indices

  /** The fixed header row. */
  const ExpectedHeaders: seq<string> := [
    "CLINIC_NO", "BARCODE", "PATIENT_ID", "PATIENT_NAME", "DOB", "GENDER",
    "COLLECTIONDATE", "COLLECTIONTIME", "TESTCODE", "TESTNAME", "RESULT",
    "UNIT", "REFRANGELOW", "REFRANGEHIGH", "NOTE", "NONSPECREFS"]

  /** The property each fixed header names, column by column. */
  const ExpectedFields: seq<Field> := [
    ClinicNo, Barcode, PatientId, PatientName, DOB, Gender,
    CollectionDate, CollectionTime, TestCode, TestName, ResultValue,
    Unit, RefRangeLow, RefRangeHigh, Note, NonSpecRefs]

  /** GetProperty(header.Replace("_", ""), IgnoreCase). */
  function PropertyOf(header: string): Option<Field> {
    FieldNamed(RemoveUnderscores(header))
  }

  /**
   * Each column bound to the property resolve gives its header, in column order; the first
   * header resolve gives no property for is the error.
   */
  function BindEach(actual: seq<string>, resolve: string -> Option<Field>): (r: Result<PropertyMap, ReadError>)
    ensures r.Success? ==> FitsColumns(r.value, |actual|)
    ensures r.Failure? ==> r.error.HeaderNotAProperty?
  {
    if actual == [] then Success([])
    else
      var last := |actual| - 1;
      match BindEach(actual[..last], resolve)
      case Failure(e) => Failure(e)
      case Success(pm) =>
        match resolve(actual[last])
        case None => Failure(HeaderNotAProperty(actual[last]))
        case Some(f) => Success(pm + [Binding(last, f)])
  }

  /** BuildPropertyMap: column i goes to the property header i names (contract: BindColumnsSpec). */
  function BindColumns(actual: seq<string>): (r: Result<PropertyMap, ReadError>)
    ensures r.Success? ==> FitsColumns(r.value, |actual|)
    ensures r.Failure? ==> r.error.HeaderNotAProperty?
  {
    BindEach(actual, PropertyOf)
  }

  /** Header i is the first header of actual that resolve gives no property for. */
  predicate FirstUnresolved(actual: seq<string>, resolve: string -> Option<Field>, i: nat) {
    i < |actual| && resolve(actual[i]).None? && forall j :: 0 <= j < i ==> resolve(actual[j]).Some?
  }

  lemma {:induction false} BindEachSpec(actual: seq<string>, resolve: string -> Option<Field>)
    ensures BindEach(actual, resolve).Success? <==> forall i :: 0 <= i < |actual| ==> resolve(actual[i]).Some?
    ensures BindEach(actual, resolve).Success? ==> |BindEach(actual, resolve).value| == |actual|
    ensures BindEach(actual, resolve).Success? ==>
      forall i :: 0 <= i < |actual| ==> BindEach(actual, resolve).value[i] == Binding(i, resolve(actual[i]).value)
    ensures BindEach(actual, resolve).Failure? ==>
      exists i: nat :: FirstUnresolved(actual, resolve, i) && BindEach(actual, resolve).error == HeaderNotAProperty(actual[i])
  {
    if actual != [] {
      var last := |actual| - 1;
      var front := actual[..last];
      BindEachSpec(front, resolve);
      assert forall j :: 0 <= j < last ==> front[j] == actual[j];
      match BindEach(front, resolve)
      case Failure(e) =>
        var i: nat :| FirstUnresolved(front, resolve, i) && e == HeaderNotAProperty(front[i]);
        assert FirstUnresolved(actual, resolve, i);
      case Success(pm) =>
        if resolve(actual[last]).None? {
          assert FirstUnresolved(actual, resolve, last);
        }
    }
  }

  /**
   * The map binds every column, in column order, to the property its header names, and exists
   * exactly when every header names a property; otherwise the error names the first header
   * that names none.
   */
  lemma BindColumnsSpec(actual: seq<string>)
    ensures BindColumns(actual).Success? <==> forall i :: 0 <= i < |actual| ==> PropertyOf(actual[i]).Some?
    ensures BindColumns(actual).Success? ==> |BindColumns(actual).value| == |actual|
    ensures BindColumns(actual).Success? ==>
      forall i :: 0 <= i < |actual| ==> BindColumns(actual).value[i] == Binding(i, PropertyOf(actual[i]).value)
    ensures BindColumns(actual).Failure? ==>
      exists i: nat :: FirstUnresolved(actual, PropertyOf, i) && BindColumns(actual).error == HeaderNotAProperty(actual[i])
  {
    BindEachSpec(actual, PropertyOf);
  }

  /** The position of the first header that differs from the expected one at its position, ignoring case. */
  function FirstMismatch(actual: seq<string>, expected: seq<string>): (r: Option<nat>)
    requires |actual| <= |expected|
    ensures r.Some? ==> r.value < |actual| && !EqualsIgnoreCase(actual[r.value], expected[r.value])
    ensures r.Some? ==> forall j :: 0 <= j < r.value ==> EqualsIgnoreCase(actual[j], expected[j])
    ensures r.None? <==> forall j :: 0 <= j < |actual| ==> EqualsIgnoreCase(actual[j], expected[j])
  {
    if actual == [] then None
    else
      var last := |actual| - 1;
      var front := actual[..last];
      assert forall j :: 0 <= j < last ==> front[j] == actual[j];
      match FirstMismatch(front, expected)
      case Some(i) => Some(i)
      case None => if EqualsIgnoreCase(actual[last], expected[last]) then None else Some(last)
  }

  /**
   * The checks on the trimmed header fields, in the source's order: the count, then a property
   * for every column, then the fixed order.
   */
  function ValidateFields(actual: seq<string>): (r: Result<ValidHeader, ReadError>)
    ensures |actual| != |ExpectedHeaders| ==> r == Failure(ColumnCountMismatch(|ExpectedHeaders|, |actual|))
    ensures |actual| == |ExpectedHeaders| && BindColumns(actual).Failure? ==> r == Failure(BindColumns(actual).error)
    ensures r.Success? ==> r.value.width == |ExpectedHeaders| && r.value.pm == BindColumns(actual).value
    ensures r.Failure? ==> r.error.ColumnCountMismatch? || r.error.HeaderNotAProperty? || r.error.ColumnMismatch?
  {
    if |actual| != |ExpectedHeaders| then Failure(ColumnCountMismatch(|ExpectedHeaders|, |actual|))
    else
      match BindColumns(actual)
      case Failure(e) => Failure(e)
      case Success(pm) =>
        match FirstMismatch(actual, ExpectedHeaders)
        case Some(i) => Failure(ColumnMismatch(i, ExpectedHeaders[i], actual[i]))
        case None => Success(Header(|actual|, pm))
  }

  /** The header line split on '|' with entries trimmed, then checked. */
  function ValidateHeader(line: string): Result<ValidHeader, ReadError> {
    ValidateFields(SplitTrimmed(line, '|'))
  }

  /** ReadDataFromFileAsync, as a function of the file's existence and lines. */
  function Read(fileExists: bool, path: string, lines: seq<string>): Result<seq<LabData>, ReadError> {
    ReadFile(fileExists, path, lines, ValidateHeader)
  }

  /** One more column after a prefix that bound. */
  lemma BindColumnsStep(actual: seq<string>, i: nat, pm: PropertyMap)
    requires i < |actual|
    requires BindColumns(actual[..i]) == Success(pm)
    ensures BindColumns(actual[..i + 1]) ==
      match PropertyOf(actual[i])
      case None => Failure(HeaderNotAProperty(actual[i]))
      case Some(f) => Success(pm + [Binding(i, f)])
  {
    assert actual[..i + 1][..i] == actual[..i];
  }

  /** A failure in a prefix of the header is the failure of the whole header. */
  lemma {:induction false} BindColumnsPrefixFailure(actual: seq<string>, m: nat)
    requires m <= |actual|
    requires BindColumns(actual[..m]).Failure?
    ensures BindColumns(actual) == BindColumns(actual[..m])
    decreases |actual| - m
  {
    if m < |actual| {
      var front := actual[..|actual| - 1];
      assert front[..m] == actual[..m];
      BindColumnsPrefixFailure(front, m);
    } else {
      assert actual[..m] == actual;
    }
  }

  /** BuildPropertyMap: the for loop over the header columns, filling the index-to-property map. */
  method BuildPropertyMap(actual: seq<string>) returns (r: Result<PropertyMap, ReadError>)
    ensures r == BindColumns(actual)
  {
    var pm: PropertyMap := [];
    for i := 0 to |actual|
      invariant BindColumns(actual[..i]) == Success(pm)
    {
      BindColumnsStep(actual, i, pm);
      var property := FieldNamed(RemoveUnderscores(actual[i]));
      if property.None? {
        BindColumnsPrefixFailure(actual, i + 1);
        return Failure(HeaderNotAProperty(actual[i]));
      }
      pm := pm + [Binding(i, property.value)];
    }
    assert actual[..|actual|] == actual;
    r := Success(pm);
  }

  /** The positional check: the for loop comparing each header with the expected one at its index. */
  method CheckPositions(actual: seq<string>, expected: seq<string>) returns (r: Option<nat>)
    requires |actual| == |expected|
    ensures r == FirstMismatch(actual, expected)
  {
    for i := 0 to |expected|
      invariant forall j :: 0 <= j < i ==> EqualsIgnoreCase(actual[j], expected[j])
    {
      if !EqualsIgnoreCase(actual[i], expected[i]) {
        return Some(i);
      }
    }
    r := None;
  }

  /** ReadDataFromFileAsync: the header search, the header checks, the data loop. */
  method ReadDataFromFile(fileExists: bool, path: string, lines: seq<string>)
    returns (r: Result<seq<LabData>, ReadError>)
    ensures r == Read(fileExists, path, lines)
  {
    if !fileExists {
      return Failure(FileNotFound(path));
    }
    var header := FindHeader(lines);
    if header.None? {
      return Failure(NoHeaderLine);
    }
    var h := header.value;
    var actual := SplitTrimmed(lines[h], '|');
    if |actual| != |ExpectedHeaders| {
      return Failure(ColumnCountMismatch(|ExpectedHeaders|, |actual|));
    }
    var map_ := BuildPropertyMap(actual);
    if map_.Failure? {
      return Failure(map_.error);
    }
    var mismatch := CheckPositions(actual, ExpectedHeaders);
    if mismatch.Some? {
      var i := mismatch.value;
      return Failure(ColumnMismatch(i, ExpectedHeaders[i], actual[i]));
    }
    assert ValidateHeader(lines[h]) == Success(Header(|actual|, map_.value));
    var records := ReadDataLines(lines, h + 1, |actual|, map_.value);
    r := Success(records);
  }

  /** A header without underscores names the property whose upper-case name is its upper-case form. */
  lemma PlainHeaderResolves(h: string, f: Field)
    requires '_' !in h && Upper(h) == FieldKey(f)
    ensures PropertyOf(h) == Some(f)
  {
    RemoveUnderscoresNone(h);
    FieldNamedKey(h, f);
  }

  /** A header a + "_" + b names the property whose upper-case name is that of a + b. */
  lemma UnderscoredHeaderResolves(h: string, a: string, b: string, ab: string, f: Field)
    requires h == a + "_" + b && ab == a + b
    requires '_' !in a && '_' !in b && Upper(ab) == FieldKey(f)
    ensures PropertyOf(h) == Some(f)
  {
    var tail := "_" + b;
    assert h == a + tail;
    RemoveUnderscoresAppend(a, tail);
    assert tail[0] == '_' && tail[1..] == b;
    RemoveUnderscoresNone(a);
    RemoveUnderscoresNone(b);
    FieldNamedKey(ab, f);
  }

  lemma ExpectedHeadersResolveA(k: nat)
    requires k == 1 || 4 <= k < 7
    ensures PropertyOf(ExpectedHeaders[k]) == Some(ExpectedFields[k])
  {
    var h, f := ExpectedHeaders[k], ExpectedFields[k];
    assert '_' !in h && Upper(h) == FieldKey(f);
    PlainHeaderResolves(h, f);
  }

  lemma ExpectedHeadersResolveB(k: nat)
    requires 7 <= k < 11
    ensures PropertyOf(ExpectedHeaders[k]) == Some(ExpectedFields[k])
  {
    var h, f := ExpectedHeaders[k], ExpectedFields[k];
    assert '_' !in h && Upper(h) == FieldKey(f);
    PlainHeaderResolves(h, f);
  }

  lemma ExpectedHeadersResolveC(k: nat)
    requires 11 <= k < 16
    ensures PropertyOf(ExpectedHeaders[k]) == Some(ExpectedFields[k])
  {
    var h, f := ExpectedHeaders[k], ExpectedFields[k];
    assert '_' !in h && Upper(h) == FieldKey(f);
    PlainHeaderResolves(h, f);
  }

  lemma ExpectedHeadersResolveClinicNo()
    ensures PropertyOf(ExpectedHeaders[0]) == Some(ExpectedFields[0])
  {
    var h := ExpectedHeaders[0];
    assert h == "CLINIC_NO" && ExpectedFields[0] == ClinicNo;
    assert h == "CLINIC" + "_" + "NO";
    assert "CLINICNO" == "CLINIC" + "NO";
    UnderscoredHeaderResolves(h, "CLINIC", "NO", "CLINICNO", ClinicNo);
  }

  lemma ExpectedHeadersResolvePatientId()
    ensures PropertyOf(ExpectedHeaders[2]) == Some(ExpectedFields[2])
  {
    var h := ExpectedHeaders[2];
    assert h == "PATIENT_ID" && ExpectedFields[2] == PatientId;
    assert h == "PATIENT" + "_" + "ID";
    assert "PATIENTID" == "PATIENT" + "ID";
    UnderscoredHeaderResolves(h, "PATIENT", "ID", "PATIENTID", PatientId);
  }

  lemma ExpectedHeadersResolvePatientName()
    ensures PropertyOf(ExpectedHeaders[3]) == Some(ExpectedFields[3])
  {
    var h := ExpectedHeaders[3];
    assert h == "PATIENT_NAME" && ExpectedFields[3] == PatientName;
    assert h == "PATIENT" + "_" + "NAME";
    assert "PATIENTNAME" == "PATIENT" + "NAME";
    UnderscoredHeaderResolves(h, "PATIENT", "NAME", "PATIENTNAME", PatientName);
  }

  /** Each fixed header names the property listed at its position. */
  lemma ExpectedHeadersResolve(k: nat)
    requires k < |ExpectedHeaders|
    ensures PropertyOf(ExpectedHeaders[k]) == Some(ExpectedFields[k])
  {
    if k == 0 {
      ExpectedHeadersResolveClinicNo();
    } else if k == 2 {
      ExpectedHeadersResolvePatientId();
    } else if k == 3 {
      ExpectedHeadersResolvePatientName();
    } else if k < 7 {
      ExpectedHeadersResolveA(k);
    } else if k < 11 {
      ExpectedHeadersResolveB(k);
    } else {
      ExpectedHeadersResolveC(k);
    }
  }

  /** No property is listed at two positions. */
  lemma ExpectedFieldsInjective(i: nat, j: nat)
    requires i < |ExpectedFields| && j < |ExpectedFields|
    requires ExpectedFields[i] == ExpectedFields[j]
    ensures i == j
  {
  }

  /** A header equal to the fixed header at position k, ignoring case, names the property listed there. */
  lemma MatchingHeaderResolves(h: string, k: nat)
    requires k < |ExpectedHeaders| && EqualsIgnoreCase(h, ExpectedHeaders[k])
    ensures PropertyOf(h) == Some(ExpectedFields[k])
  {
    RemoveUnderscoresIgnoreCase(h, ExpectedHeaders[k]);
    FieldNamedIgnoresCase(RemoveUnderscores(h), RemoveUnderscores(ExpectedHeaders[k]));
    ExpectedHeadersResolve(k);
  }

  /** The map every accepted header yields: column i to the property listed at position i. */
  const CanonicalMap: PropertyMap :=
    seq(|ExpectedFields|, i requires 0 <= i < |ExpectedFields| => Binding(i, ExpectedFields[i]))

  /**
   * The positional reader accepts exactly the header rows that list the sixteen fixed headers in
   * their fixed order, each equal to the fixed one ignoring case, and every header it accepts
   * yields the same map: column i to the property listed at position i.
   */
  lemma ValidateFieldsSpec(actual: seq<string>)
    ensures ValidateFields(actual).Success? <==>
      |actual| == |ExpectedHeaders| && forall i :: 0 <= i < |actual| ==> EqualsIgnoreCase(actual[i], ExpectedHeaders[i])
    ensures ValidateFields(actual).Success? ==> ValidateFields(actual).value == Header(|ExpectedHeaders|, CanonicalMap)
  {
    if |actual| == |ExpectedHeaders| && forall i :: 0 <= i < |actual| ==> EqualsIgnoreCase(actual[i], ExpectedHeaders[i]) {
      forall i | 0 <= i < |actual|
        ensures PropertyOf(actual[i]) == Some(ExpectedFields[i])
      {
        MatchingHeaderResolves(actual[i], i);
      }
      BindColumnsSpec(actual);
      var pm := BindColumns(actual).value;
      assert pm == CanonicalMap;
    }
  }

  /** The position at which a property is listed. */
  function PositionOf(f: Field): (k: nat)
    ensures k < |ExpectedFields| && ExpectedFields[k] == f
  {
    match f
    case ClinicNo => 0
    case Barcode => 1
    case PatientId => 2
    case PatientName => 3
    case DOB => 4
    case Gender => 5
    case CollectionDate => 6
    case CollectionTime => 7
    case TestCode => 8
    case TestName => 9
    case ResultValue => 10
    case Unit => 11
    case RefRangeLow => 12
    case RefRangeHigh => 13
    case Note => 14
    case NonSpecRefs => 15
  }

  /** Under the canonical map, the property listed at position k holds the field of column k. */
  lemma CanonicalGet(fields: seq<string>, k: nat)
    requires |fields| == |ExpectedHeaders| && k < |ExpectedFields|
    ensures FitsColumns(CanonicalMap, |fields|)
    ensures MapFields(fields, CanonicalMap).Get(ExpectedFields[k]) == fields[k]
  {
    var c := ColumnOf(CanonicalMap, ExpectedFields[k]);
    assert CanonicalMap[k].field == ExpectedFields[k];
    var j :| 0 <= j < |CanonicalMap| && CanonicalMap[j] == Binding(c.value, ExpectedFields[k]);
    ExpectedFieldsInjective(j, k);
    MapFieldsGet(fields, CanonicalMap, ExpectedFields[k]);
  }

  /**
   * A data line under an accepted header fills the record column by column in the fixed order:
   * every property is set, from the column of its fixed header.
   */
  lemma CanonicalRecord(fields: seq<string>)
    requires |fields| == |ExpectedHeaders|
    ensures FitsColumns(CanonicalMap, |fields|)
    ensures MapFields(fields, CanonicalMap) == LabData(
      fields[0], fields[1], fields[6], fields[7], fields[2], fields[3], fields[4], fields[5],
      fields[8], fields[9], fields[10], fields[11], fields[12], fields[13], fields[14], fields[15])
  {
    var got := MapFields(fields, CanonicalMap);
    var rec := LabData(
      fields[0], fields[1], fields[6], fields[7], fields[2], fields[3], fields[4], fields[5],
      fields[8], fields[9], fields[10], fields[11], fields[12], fields[13], fields[14], fields[15]);
    forall f: Field
      ensures got.Get(f) == rec.Get(f)
    {
      CanonicalGet(fields, PositionOf(f));
      CanonicalRecordGet(fields, f);
    }
    Extensionality(got, rec);
  }

  /** The record CanonicalRecord names holds, for each property, the column at its position. */
  lemma CanonicalRecordGet(fields: seq<string>, f: Field)
    requires |fields| == |ExpectedHeaders|
    ensures LabData(
      fields[0], fields[1], fields[6], fields[7], fields[2], fields[3], fields[4], fields[5],
      fields[8], fields[9], fields[10], fields[11], fields[12], fields[13], fields[14], fields[15]).Get(f)
      == fields[PositionOf(f)]
  {
  }

  /** A fixed header moved to another position differs, ignoring case, from the one expected there. */
  lemma MovedHeaderMismatch(i: nat, k: nat)
    requires i < |ExpectedHeaders| && k < |ExpectedHeaders| && i != k
    ensures !EqualsIgnoreCase(ExpectedHeaders[i], ExpectedHeaders[k])
  {
    if EqualsIgnoreCase(ExpectedHeaders[i], ExpectedHeaders[k]) {
      MatchingHeaderResolves(ExpectedHeaders[i], k);
      ExpectedHeadersResolve(i);
      ExpectedFieldsInjective(i, k);
    }
  }

  /**
   * The sixteen fixed headers in any other order are rejected: the property check passes, and
   * the positional check reports the first position k whose header moved, with the header
   * expected there and the one found.
   */
  lemma ReorderedHeaderRejected(perm: seq<nat>, k: nat)
    requires IsPermutation(perm, |ExpectedHeaders|)
    requires k < |perm| && perm[k] != k && forall j :: 0 <= j < k ==> perm[j] == j
    ensures ValidateFields(Permute(ExpectedHeaders, perm))
      == Failure(ColumnMismatch(k, ExpectedHeaders[k], ExpectedHeaders[perm[k]]))
  {
    var actual := Permute(ExpectedHeaders, perm);
    forall i | 0 <= i < |actual|
      ensures PropertyOf(actual[i]).Some?
    {
      ExpectedHeadersResolve(perm[i]);
    }
    BindColumnsSpec(actual);
    MovedHeaderMismatch(perm[k], k);
    assert forall j :: 0 <= j < k ==> actual[j] == ExpectedHeaders[j];
    var m := FirstMismatch(actual, ExpectedHeaders);
    assert m == Some(k);
  }
}
