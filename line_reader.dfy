/**
 * The skeleton both lab-file readers share: find the header line after the leading comments and
 * blank lines, then turn every later '|'-delimited line with the header's field count into one
 * LabData record through a column-to-property map. The errors either reader can raise are here too.
 */
module LineReader {
  import opened Wrappers
  import opened Text
  import opened LabRecord

  /** The exceptions the readers throw, one constructor per distinct message. */
  datatype ReadError =
    | FileNotFound(path: string)
    | NoHeaderLine
    | ColumnCountMismatch(expectedCount: nat, foundCount: nat)
    | DuplicateHeaderKey(key: string)
    | ExpectedHeaderMissing(header: string)
    | ExpectedHeaderNotAProperty(header: string)
    | ColumnBoundTwice(column: nat)
    | HeaderNotAProperty(header: string)
    | ColumnMismatch(column: nat, expected: string, found: string)
  {
    /** The exception message. The two dictionary errors carry the .NET ArgumentException text. */
    function Message(): string {
      match this
      case FileNotFound(path) => "The data file was not found at: " + path
      case NoHeaderLine => "File contains no data or header line."
      case ColumnCountMismatch(expected, found) =>
        "Header validation failed: Expected " + NatToString(expected) + " columns but found "
        + NatToString(found) + "."
      case DuplicateHeaderKey(key) => "An item with the same key has already been added. Key: " + key
      case ExpectedHeaderMissing(header) =>
        "Header validation failed: Expected header '" + header + "' was not found in the data file."
      case ExpectedHeaderNotAProperty(header) =>
        "Configuration Error: Expected header '" + header + "' does not match any property in the LabData model."
      case ColumnBoundTwice(column) =>
        "An item with the same key has already been added. Key: " + NatToString(column)
      case HeaderNotAProperty(header) =>
        "Header '" + header + "' does not match any property in the LabData model."
      case ColumnMismatch(column, expected, found) =>
        "Header validation failed: Column at index " + NatToString(column) + " mismatch. Expected '"
        + expected + "' but found '" + found + "'."
    }
  }

  /** One entry of the column-to-property dictionary. */
  datatype Binding = Binding(column: nat, field: Field)

  /** The dictionary as its entries in insertion order, which is the order it enumerates them in. */
  type PropertyMap = seq<Binding>

  /** Every column the map names exists in a line of n fields. */
  predicate FitsColumns(pm: PropertyMap, n: nat) {
    forall k :: 0 <= k < |pm| ==> pm[k].column < n
  }

  /** A line the header search passes over: it starts with '#', or it is blank. */
  predicate IsCommentOrBlank(line: string) {
    (|line| > 0 && line[0] == '#') || IsBlank(line)
  }

  /** The position of the header line: the first line that is neither a comment nor blank. */
  function HeaderIndex(lines: seq<string>): (r: Option<nat>)
    ensures r.Some? ==> r.value < |lines| && !IsCommentOrBlank(lines[r.value])
    ensures r.Some? ==> forall j :: 0 <= j < r.value ==> IsCommentOrBlank(lines[j])
    ensures r.None? <==> forall j :: 0 <= j < |lines| ==> IsCommentOrBlank(lines[j])
  {
    if lines == [] then None
    else if !IsCommentOrBlank(lines[0]) then Some(0)
    else
      match HeaderIndex(lines[1..])
      case None => None
      case Some(k) => Some(k + 1)
  }

  /** Comment and blank lines put in front of a file move its header line down and change nothing else. */
  lemma {:induction false} HeaderIndexAfterPreamble(preamble: seq<string>, rest: seq<string>)
    requires forall j :: 0 <= j < |preamble| ==> IsCommentOrBlank(preamble[j])
    ensures HeaderIndex(preamble + rest) ==
      match HeaderIndex(rest)
      case None => None
      case Some(k) => Some(|preamble| + k)
  {
    if preamble == [] {
      assert preamble + rest == rest;
    } else {
      var lines := preamble + rest;
      assert lines[0] == preamble[0];
      assert lines[1..] == preamble[1..] + rest;
      HeaderIndexAfterPreamble(preamble[1..], rest);
    }
  }

  /** The header search loop: advance past comments and blank lines, stop at the first other line. */
  method FindHeader(lines: seq<string>) returns (h: Option<nat>)
    ensures h == HeaderIndex(lines)
  {
    var i := 0;
    while i < |lines| && IsCommentOrBlank(lines[i])
      invariant 0 <= i <= |lines|
      invariant forall j :: 0 <= j < i ==> IsCommentOrBlank(lines[j])
    {
      i := i + 1;
    }
    h := if i < |lines| then Some(i) else None;
  }

  /** The record a line's fields give: a fresh LabData with each entry of the map applied in order. */
  function MapFields(fields: seq<string>, pm: PropertyMap): LabData
    requires FitsColumns(pm, |fields|)
  {
    if pm == [] then Empty
    else
      var last := pm[|pm| - 1];
      MapFields(fields, pm[..|pm| - 1]).With(last.field, fields[last.column])
  }

  /** The column of the last entry of the map that targets f, if any. */
  function ColumnOf(pm: PropertyMap, f: Field): (r: Option<nat>)
    ensures r.Some? ==> exists k :: 0 <= k < |pm| && pm[k] == Binding(r.value, f)
    ensures r.None? <==> forall k :: 0 <= k < |pm| ==> pm[k].field != f
  {
    if pm == [] then None
    else if pm[|pm| - 1].field == f then Some(pm[|pm| - 1].column)
    else ColumnOf(pm[..|pm| - 1], f)
  }

  /**
   * Each property of the record holds the raw field at the column the map assigns to it (the
   * last such column, as later SetValue calls overwrite earlier ones), and unmapped properties
   * stay unset.
   */
  lemma {:induction false} MapFieldsGet(fields: seq<string>, pm: PropertyMap, f: Field)
    requires FitsColumns(pm, |fields|)
    ensures ColumnOf(pm, f).Some? ==> ColumnOf(pm, f).value < |fields|
    ensures MapFields(fields, pm).Get(f) ==
      match ColumnOf(pm, f)
      case None => ""
      case Some(c) => fields[c]
  {
    if pm != [] {
      MapFieldsGet(fields, pm[..|pm| - 1], f);
    }
  }

  /** Two maps with the same entries fill in the same record. */
  lemma MapFieldsSameEntries(fields: seq<string>, pm: PropertyMap, fields': seq<string>, pm': PropertyMap)
    requires FitsColumns(pm, |fields|) && FitsColumns(pm', |fields'|)
    requires |pm| == |pm'|
    requires forall k :: 0 <= k < |pm| ==> pm[k].field == pm'[k].field
    requires forall k :: 0 <= k < |pm| ==> fields[pm[k].column] == fields'[pm'[k].column]
    ensures MapFields(fields, pm) == MapFields(fields', pm')
  {
    if pm != [] {
      MapFieldsSameEntries(fields, pm[..|pm| - 1], fields', pm'[..|pm'| - 1]);
    }
  }

  /** MapFieldsToLabData: the foreach over the map, one SetValue per entry. */
  method MapFieldsToLabData(fields: seq<string>, pm: PropertyMap) returns (r: LabData)
    requires FitsColumns(pm, |fields|)
    ensures r == MapFields(fields, pm)
  {
    r := Empty;
    for k := 0 to |pm|
      invariant r == MapFields(fields, pm[..k])
    {
      assert pm[..k + 1][..k] == pm[..k];
      r := r.With(pm[k].field, fields[pm[k].column]);
    }
    assert pm[..|pm|] == pm;
  }

  /** What one data line contributes: nothing when blank or of the wrong width, else its record. */
  function LineRecords(line: string, width: nat, pm: PropertyMap): (r: seq<LabData>)
    requires FitsColumns(pm, width)
    ensures |r| <= 1
  {
    if IsBlank(line) then []
    else
      var fields := Split(line, '|');
      if |fields| != width then [] else [MapFields(fields, pm)]
  }

  /** The outputs of f on each element of xs, one after another. */
  function Concat<T>(xs: seq<string>, f: string -> seq<T>): seq<T> {
    if xs == [] then [] else Concat(xs[..|xs| - 1], f) + f(xs[|xs| - 1])
  }

  lemma {:induction false} ConcatAppend<T>(a: seq<string>, b: seq<string>, f: string -> seq<T>)
    ensures Concat(a + b, f) == Concat(a, f) + Concat(b, f)
  {
    if b == [] {
      assert a + b == a;
    } else {
      var ab := a + b;
      assert ab[..|ab| - 1] == a + b[..|b| - 1];
      assert ab[|ab| - 1] == b[|b| - 1];
      ConcatAppend(a, b[..|b| - 1], f);
    }
  }

  /** With at most one output per element, there are at most as many outputs as elements. */
  lemma {:induction false} ConcatLength<T>(xs: seq<string>, f: string -> seq<T>)
    requires forall x :: |f(x)| <= 1
    ensures |Concat(xs, f)| <= |xs|
  {
    if xs != [] {
      ConcatLength(xs[..|xs| - 1], f);
    }
  }

  /** One element gives its own outputs. */
  lemma ConcatOne<T>(x: string, f: string -> seq<T>)
    ensures Concat([x], f) == f(x)
  {
    assert [x][..0] == [];
  }

  /** Elements whose outputs are all empty give no outputs. */
  lemma {:induction false} ConcatNone<T>(xs: seq<string>, f: string -> seq<T>)
    requires forall j :: 0 <= j < |xs| ==> f(xs[j]) == []
    ensures Concat(xs, f) == []
  {
    if xs != [] {
      ConcatNone(xs[..|xs| - 1], f);
    }
  }

  /** The records of the data lines, in file order. */
  function DataRecords(lines: seq<string>, width: nat, pm: PropertyMap): (r: seq<LabData>)
    requires FitsColumns(pm, width)
  {
    Concat(lines, line => LineRecords(line, width, pm))
  }

  /** The records of two runs of lines are the records of the first followed by those of the second. */
  lemma DataRecordsAppend(a: seq<string>, b: seq<string>, width: nat, pm: PropertyMap)
    requires FitsColumns(pm, width)
    ensures DataRecords(a + b, width, pm) == DataRecords(a, width, pm) + DataRecords(b, width, pm)
  {
    ConcatAppend(a, b, line => LineRecords(line, width, pm));
  }

  /** A run of lines yields at most one record per line. */
  lemma DataRecordsLength(lines: seq<string>, width: nat, pm: PropertyMap)
    requires FitsColumns(pm, width)
    ensures |DataRecords(lines, width, pm)| <= |lines|
  {
    ConcatLength(lines, line => LineRecords(line, width, pm));
  }

  /**
   * A data line yields exactly one record when it is not blank and splits into the header's
   * number of fields, and none otherwise; the record is the line's raw fields put through the map.
   */
  lemma DataRecordsOneLine(line: string, width: nat, pm: PropertyMap)
    requires FitsColumns(pm, width)
    ensures |DataRecords([line], width, pm)| == 1 <==> !IsBlank(line) && |Split(line, '|')| == width
    ensures |DataRecords([line], width, pm)| == 1 ==> DataRecords([line], width, pm) == [MapFields(Split(line, '|'), pm)]
  {
    ConcatOne(line, line => LineRecords(line, width, pm));
  }

  /** Data lines that are all blank give no records. */
  lemma DataRecordsBlank(lines: seq<string>, width: nat, pm: PropertyMap)
    requires FitsColumns(pm, width)
    requires forall j :: 0 <= j < |lines| ==> IsBlank(lines[j])
    ensures DataRecords(lines, width, pm) == []
  {
    ConcatNone(lines, line => LineRecords(line, width, pm));
  }

  /** The data loop: after the header, skip blank lines and lines of the wrong width, map the rest. */
  method ReadDataLines(lines: seq<string>, start: nat, width: nat, pm: PropertyMap) returns (records: seq<LabData>)
    requires start <= |lines|
    requires FitsColumns(pm, width)
    ensures records == DataRecords(lines[start..], width, pm)
  {
    records := [];
    var i := start;
    while i < |lines|
      invariant start <= i <= |lines|
      invariant records == DataRecords(lines[start..i], width, pm)
    {
      var line := lines[i];
      assert lines[start..i + 1][..i - start] == lines[start..i];
      if !IsBlank(line) {
        var fields := Split(line, '|');
        if |fields| == width {
          var record := MapFieldsToLabData(fields, pm);
          records := records + [record];
        }
      }
      i := i + 1;
    }
    assert lines[start..i] == lines[start..];
  }

  /** What a reader's header validation yields: the field count of a data line, and the property map. */
  datatype Header = Header(width: nat, pm: PropertyMap)

  /** A header whose map only names columns a line of its width has. */
  type ValidHeader = h: Header | FitsColumns(h.pm, h.width) witness Header(0, [])

  /**
   * ReadDataFromFile with the reader-specific header validation passed in: the missing-file check,
   * the header search, then the records of every line after the header line.
   */
  function ReadFile(fileExists: bool, path: string, lines: seq<string>,
                    validate: string -> Result<ValidHeader, ReadError>): Result<seq<LabData>, ReadError>
  {
    if !fileExists then Failure(FileNotFound(path))
    else
      match HeaderIndex(lines)
      case None => Failure(NoHeaderLine)
      case Some(h) =>
        match validate(lines[h])
        case Failure(e) => Failure(e)
        case Success(header) => Success(DataRecords(lines[h + 1..], header.width, header.pm))
  }

  /**
   * A file that exists fails with NoHeaderLine exactly when all its lines are comments or blank,
   * provided the header validation never raises that error itself.
   */
  lemma NoHeaderLineIffOnlyComments(path: string, lines: seq<string>, validate: string -> Result<ValidHeader, ReadError>)
    requires forall line :: validate(line) != Failure(NoHeaderLine)
    ensures ReadFile(true, path, lines, validate) == Failure(NoHeaderLine) <==>
      forall j :: 0 <= j < |lines| ==> IsCommentOrBlank(lines[j])
  {
    match HeaderIndex(lines)
    case None =>
    case Some(h) =>
      assert validate(lines[h]) != Failure(NoHeaderLine);
  }

  /** Comment and blank lines in front of the header change nothing about the outcome. */
  lemma PreambleIgnored(fileExists: bool, path: string, preamble: seq<string>, lines: seq<string>,
                        validate: string -> Result<ValidHeader, ReadError>)
    requires forall j :: 0 <= j < |preamble| ==> IsCommentOrBlank(preamble[j])
    ensures ReadFile(fileExists, path, preamble + lines, validate) == ReadFile(fileExists, path, lines, validate)
  {
    HeaderIndexAfterPreamble(preamble, lines);
    match HeaderIndex(lines)
    case None =>
    case Some(h) =>
      var all := preamble + lines;
      assert all[|preamble| + h] == lines[h];
      assert all[|preamble| + h + 1..] == lines[h + 1..];
  }

  /** The record line yields: it is not blank, it has width fields, and the map turns them into rec. */
  predicate Yields(line: string, width: nat, pm: PropertyMap, rec: LabData)
    requires FitsColumns(pm, width)
  {
    !IsBlank(line) && |Split(line, '|')| == width && rec == MapFields(Split(line, '|'), pm)
  }

  /** Every record of a run of data lines is the record of one of those lines. */
  lemma {:induction false} DataRecordsFromLines(lines: seq<string>, width: nat, pm: PropertyMap)
    requires FitsColumns(pm, width)
    ensures forall i :: 0 <= i < |DataRecords(lines, width, pm)| ==>
      exists j :: 0 <= j < |lines| && Yields(lines[j], width, pm, DataRecords(lines, width, pm)[i])
  {
    if lines != [] {
      var front := lines[..|lines| - 1];
      var prior := DataRecords(front, width, pm);
      DataRecordsFromLines(front, width, pm);
      var r := DataRecords(lines, width, pm);
      assert r == prior + LineRecords(lines[|lines| - 1], width, pm);
      forall i | 0 <= i < |r|
        ensures exists j :: 0 <= j < |lines| && Yields(lines[j], width, pm, r[i])
      {
        if i < |prior| {
          assert r[i] == prior[i];
          var j :| 0 <= j < |front| && Yields(front[j], width, pm, prior[i]);
          assert lines[j] == front[j];
        } else {
          assert Yields(lines[|lines| - 1], width, pm, r[i]);
        }
      }
    } else {
      assert DataRecords(lines, width, pm) == [];
    }
  }

  /**
   * A successful read yields fewer records than there are lines after the header line, and each
   * record is the record of one line after the header.
   */
  lemma ReadRecordsComeFromDataLines(fileExists: bool, path: string, lines: seq<string>,
                                     validate: string -> Result<ValidHeader, ReadError>)
    requires ReadFile(fileExists, path, lines, validate).Success?
    ensures HeaderIndex(lines).Some?
    ensures var r := ReadFile(fileExists, path, lines, validate).value;
      var h := HeaderIndex(lines).value;
      var header := validate(lines[h]).value;
      |r| < |lines| - h &&
      forall i :: 0 <= i < |r| ==>
        exists j :: h < j < |lines| && Yields(lines[j], header.width, header.pm, r[i])
  {
    var h := HeaderIndex(lines).value;
    var header := validate(lines[h]).value;
    var data := lines[h + 1..];
    DataRecordsLength(data, header.width, header.pm);
    DataRecordsFromLines(data, header.width, header.pm);
    var r := DataRecords(data, header.width, header.pm);
    forall i | 0 <= i < |r|
      ensures exists j :: h < j < |lines| && Yields(lines[j], header.width, header.pm, r[i])
    {
      var j :| 0 <= j < |data| && Yields(data[j], header.width, header.pm, r[i]);
      assert data[j] == lines[h + 1 + j];
    }
  }

  /** A file whose lines after the header are all blank reads as no records, if the header validates. */
  lemma HeaderOnlyFileHasNoRecords(fileExists: bool, path: string, lines: seq<string>,
                                   validate: string -> Result<ValidHeader, ReadError>)
    requires fileExists && HeaderIndex(lines).Some?
    requires validate(lines[HeaderIndex(lines).value]).Success?
    requires forall j :: HeaderIndex(lines).value < j < |lines| ==> IsBlank(lines[j])
    ensures ReadFile(fileExists, path, lines, validate) == Success([])
  {
    var h := HeaderIndex(lines).value;
    var header := validate(lines[h]).value;
    var data := lines[h + 1..];
    forall j | 0 <= j < |data| ensures IsBlank(data[j]) {
      assert data[j] == lines[h + 1 + j];
    }
    DataRecordsBlank(data, header.width, header.pm);
  }

  /** A line appended after the header adds that line's record, if any, at the end and changes nothing before it. */
  lemma OneMoreLine(fileExists: bool, path: string, lines: seq<string>, line: string,
                    validate: string -> Result<ValidHeader, ReadError>)
    requires ReadFile(fileExists, path, lines, validate).Success?
    ensures HeaderIndex(lines).Some?
    ensures var header := validate(lines[HeaderIndex(lines).value]).value;
      ReadFile(fileExists, path, lines + [line], validate) ==
        Success(ReadFile(fileExists, path, lines, validate).value + LineRecords(line, header.width, header.pm))
  {
    var h := HeaderIndex(lines).value;
    var header := validate(lines[h]).value;
    var all := lines + [line];
    HeaderIndexAfterHeader(lines, [line]);
    assert all[h] == lines[h];
    assert all[h + 1..] == lines[h + 1..] + [line];
    DataRecordsAppend(lines[h + 1..], [line], header.width, header.pm);
    assert [line][..0] == [];
  }

  /** Lines appended to a file that already has a header line leave the header where it was. */
  lemma {:induction false} HeaderIndexAfterHeader(lines: seq<string>, more: seq<string>)
    requires HeaderIndex(lines).Some?
    ensures HeaderIndex(lines + more) == HeaderIndex(lines)
  {
    var all := lines + more;
    if IsCommentOrBlank(lines[0]) {
      assert all[0] == lines[0];
      assert all[1..] == lines[1..] + more;
      HeaderIndexAfterHeader(lines[1..], more);
    } else {
      assert all[0] == lines[0];
    }
  }
}
