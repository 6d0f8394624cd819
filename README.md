# LabResults core, modelled in Dafny

LabResults loads laboratory result files into a SQLite database and serves them over HTTP. This
project models the core of that system and proves properties of the model:

- **The two lab-file readers.** Each reader skips leading `#` comments and blank lines to find
  the header line, splits it on `|` and validates it. It then turns every later line with the
  header's field count into one `LabData` record of sixteen raw strings.
  - The web-side reader (`Labresults.Infrastructure`) resolves each configured header by name,
    trimmed and case-insensitive, so column order does not matter. It is module
    `HeaderResolver`.
  - The console loader's reader (`LabResults.DataLoader`) demands the fixed header order. It is
    module `PositionalReader`.
  - The skeleton both readers share is module `LineReader`. The record and its sixteen
    properties are in `LabRecord`. `ReaderComparison` relates the two readers.
- **The upsert writer** (`LabDataWriter.ProcessAndSaveDataAsync`, module `Reconciliation`). For
  each record it:
  - finds or creates the patient, first in the tracked entities, then in the database;
  - finds or creates the sample by barcode, the same way;
  - updates the sample's result with the record's test code, or creates one.

  One save at the end writes everything, and an exception before it writes nothing.
  - The specification is a set of functions over the database value (`Entities.Store`) and the
    context's staged changes (`Reconciliation.Staged`).
  - The class `Reconciliation.Writer` holds that state in fields. Its methods are proved
    against those functions.
  - `WriterProperties` and `WriterInvariants` prove what one record and a whole batch do.
  - `WriterFindings` shows the writer's two defects (see "## Findings").
- **The read-side queries** (module `Queries`):
  - the test results of a patient, flattened over its samples, or NotFound;
  - a patient by key, or NotFound;
  - all patients sorted by name.

  They are pure functions of the database value.

Supporting modules:

- `Wrappers`: Option and Result.
- `Text`: trimming, case folding, splitting and number rendering.
- `Parsing`: `int.TryParse`, `long.TryParse`, `DateOnly.ParseExact`, `TimeOnly.ParseExact` and
  `decimal.TryParse`, as the writer uses them.
- `Indices`: index permutations.

The writer is modelled twice: `Rules.AsWritten` and `Rules.Corrected`.
- `AsWritten` is the code as it stands. Every property proved for all rules holds for it.
- `Corrected` is the evidently intended code. It differs only where "## Findings" says.

### Where the code and its description differ

- **The birth-date property.** `LabResults.Domain/Models/LabData.cs:14` declares the property
  `DateOfBirth`. The loader's header list (`LabResults.DataLoader/LabDataReader.cs:11`) and the
  writer (`LabResults.DataLoader/LabDataWriter.cs:42`) use `DOB`. The model follows the reader
  and the writer: the property is `DOB`, so the `DOB` header binds to it.
- **The collection time.** The writer parses it with `hh\:mm`
  (`LabResults.DataLoader/LabDataWriter.cs:13`), the 12-hour clock without an AM/PM designator.
  Nothing in the repository says which clock the files use; the one data line in the tests
  carries 08:30. The model follows the code. "## Findings" shows what `hh` does to a time
  written on the 24-hour clock, assuming files may carry such times.

## Model

| member | source | states |
|---|---|---|
| Text.TrimEmptyIffBlank | Labresults.Infrastructure/Readers/LabDataReader.cs:35 | A line trims to nothing exactly when it is blank (`string.IsNullOrWhiteSpace`). |
| Text.TrimIdempotent | Labresults.Infrastructure/Readers/LabDataReader.cs:88 | Trimming an already trimmed header changes nothing. |
| Text.RemoveUnderscoresIgnoreCase | Labresults.Infrastructure/Readers/LabDataReader.cs:101-105 | Removing underscores keeps two names equal up to case. |
| Text.SplitJoin | Labresults.Infrastructure/Readers/LabDataReader.cs:67 | Splitting a line joined with the bar delimiter returns its fields. |
| Text.JoinSplit | Labresults.Infrastructure/Readers/LabDataReader.cs:67 | Joining the split fields with the bar delimiter rebuilds the line. |
| LabRecord.LabData.With | Labresults.Infrastructure/Readers/LabDataReader.cs:132 | Setting one property gives it the value and leaves the other fifteen unchanged. |
| LabRecord.FieldNamed | LabResults.DataLoader/LabDataReader.cs:101-103 | The case-insensitive property lookup finds the property whose upper-cased name matches, or reports that none does. |
| LabRecord.FieldNamedIgnoresCase | LabResults.DataLoader/LabDataReader.cs:101-103 | Names equal up to case find the same property. |
| LabRecord.FieldKeyInjective | LabResults.Domain/Models/LabData.cs:6-25 | No two properties share a name up to case. |
| LineReader.HeaderIndex | Labresults.Infrastructure/Readers/LabDataReader.cs:29-42 | The header is the first line that is neither a comment nor blank; there is none exactly when every line is a comment or blank. |
| LineReader.FindHeader | Labresults.Infrastructure/Readers/LabDataReader.cs:29-42 | The search loop stops at that line. |
| LineReader.MapFieldsGet | Labresults.Infrastructure/Readers/LabDataReader.cs:123-136 | A property of the filled record holds the field of the last column the map binds it to, and stays unset when the map names it nowhere. |
| LineReader.MapFieldsToLabData | Labresults.Infrastructure/Readers/LabDataReader.cs:123-136 | The loop over the map's entries builds that record. |
| LineReader.ReadDataLines | Labresults.Infrastructure/Readers/LabDataReader.cs:62-72 | The data loop yields the records of the non-blank lines with the header's field count, in file order. |
| LineReader.DataRecordsOneLine | Labresults.Infrastructure/Readers/LabDataReader.cs:65-71 | A line yields a record exactly when it is not blank and has the header's field count, and that record is its fields mapped. |
| LineReader.DataRecordsAppend | Labresults.Infrastructure/Readers/LabDataReader.cs:62-72 | The records of two runs of lines are the records of each, in order. |
| LineReader.DataRecordsLength | Labresults.Infrastructure/Readers/LabDataReader.cs:62-72 | There are never more records than data lines. |
| LineReader.NoHeaderLineIffOnlyComments | Labresults.Infrastructure/Readers/LabDataReader.cs:44-47 | An existing file fails with "File contains no data or header line." exactly when all its lines are comments or blank. |
| LineReader.PreambleIgnored | Labresults.Infrastructure/Readers/LabDataReader.cs:31-42 | Comment and blank lines before the header do not change the outcome. |
| LineReader.ReadRecordsComeFromDataLines | Labresults.Infrastructure/Readers/LabDataReader.cs:62-72 | Every record read comes from a line after the header that is not blank and has the header's field count. |
| LineReader.HeaderOnlyFileHasNoRecords | Labresults.Infrastructure/Readers/LabDataReader.cs:59-74 | A valid header followed only by blank lines reads as an empty list. |
| LineReader.OneMoreLine | Labresults.Infrastructure/Readers/LabDataReader.cs:62-72 | Appending a line to a readable file appends exactly that line's records. |
| HeaderResolver.IndexByKeySpec | Labresults.Infrastructure/Readers/LabDataReader.cs:87-89 | The header dictionary succeeds exactly when the normalised headers are distinct, maps each to its index, and otherwise fails on a repeated key. |
| HeaderResolver.IndexHeaders | Labresults.Infrastructure/Readers/LabDataReader.cs:87-89 | The loop building the header dictionary computes that dictionary. |
| HeaderResolver.Configure | Labresults.Infrastructure/Readers/LabDataReader.cs:93-105 | An expected header's lookup key is its trimmed upper-case form, and its property is the one named by the header without underscores, up to case. |
| HeaderResolver.BindExpected | Labresults.Infrastructure/Readers/LabDataReader.cs:96-114 | One expected header fails as missing, as not a property, or on a column already bound; otherwise it appends its binding. |
| HeaderResolver.BindAll | Labresults.Infrastructure/Readers/LabDataReader.cs:91-117 | Binding succeeds exactly when every expected header resolves to a distinct column, and then binding i is header i's column and property. |
| HeaderResolver.BindAllFailsAt | Labresults.Infrastructure/Readers/LabDataReader.cs:91-115 | The first expected header that fails decides the error. |
| HeaderResolver.BindConfigured | Labresults.Infrastructure/Readers/LabDataReader.cs:91-115 | The loop over the expected headers computes that binding. |
| HeaderResolver.BuildPropertyMap | Labresults.Infrastructure/Readers/LabDataReader.cs:82-118 | BuildPropertyMap computes the resolved property map. |
| HeaderResolver.ValidateHeader | Labresults.Infrastructure/Readers/LabDataReader.cs:50-57 | A valid header has the configured field count and binds every column exactly once. |
| HeaderResolver.ReadDataFromFile | Labresults.Infrastructure/Readers/LabDataReader.cs:18-76 | The reader method computes the file's outcome: the missing-file error, the header errors, or the records. |
| HeaderResolver.EveryColumnBoundOnce | Labresults.Infrastructure/Readers/LabDataReader.cs:52-57 | With the field count checked, a resolved map binds every column once. |
| HeaderResolver.FieldComesFromMatchingColumn | Labresults.Infrastructure/Readers/LabDataReader.cs:96-132 | Each configured property is filled from the column whose normalised header equals the configured one. |
| HeaderResolver.ResolveIgnoresColumnOrder | Labresults.Infrastructure/Readers/LabDataReader.cs:87-117 | Permuting the columns of the header and of every data line does not change whether the header resolves or the records read. |
| PositionalReader.BindColumnsSpec | LabResults.DataLoader/LabDataReader.cs:95-114 | Each header binds its own column to the property it names; the first one that names none fails, naming it. |
| PositionalReader.BuildPropertyMap | LabResults.DataLoader/LabDataReader.cs:90-116 | The loop computes that map. |
| PositionalReader.FirstMismatch | LabResults.DataLoader/LabDataReader.cs:57-63 | This is the first index whose header differs from the fixed list up to case; there is none exactly when all agree. |
| PositionalReader.CheckPositions | LabResults.DataLoader/LabDataReader.cs:57-63 | The position loop finds that index. |
| PositionalReader.ValidateFields | LabResults.DataLoader/LabDataReader.cs:48-63 | The header is checked in order: count, then property map, then positions. |
| PositionalReader.ValidateFieldsSpec | LabResults.DataLoader/LabDataReader.cs:48-63 | A header passes exactly when it matches the fixed list up to case, and then every column binds to its fixed property. |
| PositionalReader.ReadDataFromFile | LabResults.DataLoader/LabDataReader.cs:16-84 | The reader method computes the file's outcome. |
| PositionalReader.ExpectedHeadersResolve | LabResults.DataLoader/LabDataReader.cs:9-14 | Each of the sixteen fixed headers, underscores removed, names its property. |
| PositionalReader.CanonicalRecord | LabResults.DataLoader/LabDataReader.cs:121-135 | Under the fixed header, field k of a line fills the k-th property. |
| PositionalReader.ReorderedHeaderRejected | LabResults.DataLoader/LabDataReader.cs:57-62 | A reordered header fails at the first moved column, naming that index. |
| ReaderComparison.PositionalAgreesWithResolver | LabResults.DataLoader/LabDataReader.cs:48-84 | Whenever the positional reader succeeds, the name-resolving reader with the same headers configured returns the same records. |
| ReaderComparison.ReorderedHeaderSplitsReaders | Labresults.Infrastructure/Readers/LabDataReader.cs:87-117 | A reordered header is rejected by the positional reader, but the name-resolving reader accepts it and fills every property from the same field. |
| Parsing.ParseIntegerRoundTrip | LabResults.DataLoader/LabDataWriter.cs:25-26 | `int.TryParse` and `long.TryParse` read back any in-range integer written in decimal. |
| Parsing.ParseIntegerRejectsBlank | LabResults.DataLoader/LabDataWriter.cs:25-26 | A blank key does not parse, so the record is skipped. |
| Parsing.ParseInt32 | LabResults.DataLoader/LabDataWriter.cs:25 | An accepted patient id lies in the 32-bit range. |
| Parsing.ParseInt64 | LabResults.DataLoader/LabDataWriter.cs:26 | An accepted barcode lies in the 64-bit range. |
| Parsing.ParseDateRoundTrip | LabResults.DataLoader/LabDataWriter.cs:12 | `yyyy-MM-dd` reads back every valid date it writes. |
| Parsing.ParseDateExact | LabResults.DataLoader/LabDataWriter.cs:12 | An accepted date string is exactly the format of the date read. |
| Parsing.ParseTimeHh | LabResults.DataLoader/LabDataWriter.cs:62 | `hh\:mm` accepts only hours below 12 after reading 12 as 0. |
| Parsing.ParseTimeHhRejectsAfternoon | LabResults.DataLoader/LabDataWriter.cs:62 | `hh\:mm` rejects every time after 12:59 written on the 24-hour clock. |
| Parsing.ParseTimeHhNoonIsMidnight | LabResults.DataLoader/LabDataWriter.cs:62 | `hh\:mm` reads 12:mm as 00:mm. |
| Parsing.ParseTimeHHRoundTrip | LabResults.DataLoader/LabDataWriter.cs:62 | `HH\:mm` reads back every valid time. |
| Parsing.ParseDecimalRoundTrip | LabResults.DataLoader/LabDataWriter.cs:122 | Every decimal, written in its invariant form (a '-' when negative, the whole digits, then '.' and exactly scale digits), parses back to the same units and scale. |
| Parsing.ParseNullableDecimalRoundTrip | LabResults.DataLoader/LabDataWriter.cs:116-127 | The helper returns the value of every number it is given in that form, "3.5" as 35 at scale 1. Such a field is never blank, so the null branch does not apply. |
| Parsing.ParseNullableDecimalOfInteger | LabResults.DataLoader/LabDataWriter.cs:122-125 | Every integer written in decimal parses to that value. |
| Entities.FindPatient | LabResults.DataLoader/LabDataWriter.cs:29-33 | The lookup by key returns a patient with that key, and none exactly when no patient has it. |
| Entities.FindSample | LabResults.DataLoader/LabDataWriter.cs:49-52 | The lookup by barcode returns a sample with that barcode, and none exactly when no sample has it. |
| Reconciliation.StoredMatches | LabResults.DataLoader/LabDataWriter.cs:74-76 | The stored results the query matches, which are exactly the rows its filter accepts. |
| Reconciliation.Updated | LabResults.DataLoader/LabDataWriter.cs:83-88 | An update takes Result, Unit, Note and NonSpecRefs from the record and keeps Id, TestCode, TestName and SampleId. Its two ranges are stated by `Reconciliation.RangesParsed`. |
| Reconciliation.Created | LabResults.DataLoader/LabDataWriter.cs:95-106 | A new result takes its code, name, result, unit, note and references from the record, and gets the given key and the sample's key. Its two ranges are stated by `Reconciliation.RangesParsed`. |
| Reconciliation.RangesParsed | LabResults.DataLoader/LabDataWriter.cs:85-101 | An update and a new result both set RefRangeLow and RefRangeHigh to `ParseNullableDecimal` of the record's fields. A blank range is null, and a range written as a decimal is that decimal. |
| Reconciliation.FindTracked | LabResults.DataLoader/LabDataWriter.cs:69 | The first tracked result of the sample with the code; there is none exactly when no tracked result has both. |
| Reconciliation.SavedRows | LabResults.DataLoader/LabDataWriter.cs:112 | The save replaces each stored row the context modified by its tracked instance and keeps the others. |
| Reconciliation.AddedRows | LabResults.DataLoader/LabDataWriter.cs:112 | The save inserts exactly the tracked results that are not stored rows. |
| Reconciliation.RunPrefixFailure | LabResults.DataLoader/LabDataWriter.cs:21-110 | Once a record raises an exception, the records after it change nothing. |
| Reconciliation.Writer.constructor | LabResults.DataLoader/LabDataWriter.cs:16-19 | A new writer has nothing staged. |
| Reconciliation.Writer.FindOrCreatePatientIn | LabResults.DataLoader/LabDataWriter.cs:29-46 | The patient block updates the tracked patients as FindOrCreatePatient says, or raises its error with nothing staged. |
| Reconciliation.Writer.FindOrCreateSampleIn | LabResults.DataLoader/LabDataWriter.cs:49-66 | The sample block updates the tracked samples as FindOrCreateSample says, or raises its error with nothing staged. |
| Reconciliation.Writer.UpsertResultIn | LabResults.DataLoader/LabDataWriter.cs:69-109 | The result block stages what UpsertResult says. |
| Reconciliation.Writer.ProcessRecord | LabResults.DataLoader/LabDataWriter.cs:25-109 | One loop turn stages what Step says and leaves the database alone. |
| Reconciliation.Writer.SaveChanges | LabResults.DataLoader/LabDataWriter.cs:112 | The save commits the staged changes and leaves nothing staged. |
| Reconciliation.Writer.ProcessAndSaveData | LabResults.DataLoader/LabDataWriter.cs:21-113 | The whole call raises the first exception of the batch and leaves the database unchanged, or saves every record's changes once. |
| WriterProperties.PatientPhase | LabResults.DataLoader/LabDataWriter.cs:29-46 | The patient is resolved exactly when it is tracked, stored or has a parsable birth date. A new one has the parsed key, name, date and gender and is appended; a known one adds nothing. |
| WriterProperties.SamplePhase | LabResults.DataLoader/LabDataWriter.cs:49-66 | The sample is resolved exactly when its barcode is known or its three fields parse; the first field that fails names the error. A new sample takes the next key and the patient's key. |
| WriterProperties.UpsertPhase | LabResults.DataLoader/LabDataWriter.cs:69-109 | The result phase changes only the tracked results and the result key, by at most one added row; every other row is kept or updated. An error leaves everything staged as it was. |
| WriterProperties.SkipsUnparsableKeys | LabResults.DataLoader/LabDataWriter.cs:25-26 | A record whose patient id or barcode does not parse changes nothing. |
| WriterProperties.StepKeepsExisting | LabResults.DataLoader/LabDataWriter.cs:23-109 | A record never removes or alters a staged patient or sample, adds at most one of each, and only updates the result fields the code assigns. |
| WriterProperties.PatientCreatedOnlyWhenAbsent | LabResults.DataLoader/LabDataWriter.cs:29-46 | A patient is added exactly when the keys parse, no patient with that key is tracked or stored, and the birth date parses. |
| WriterProperties.NewPatientFields | LabResults.DataLoader/LabDataWriter.cs:38-45 | The added patient is the record's key, name, parsed birth date and gender. |
| WriterProperties.SampleCreatedOnlyWhenAbsent | LabResults.DataLoader/LabDataWriter.cs:49-66 | A sample is added exactly when its barcode is neither tracked nor stored and its fields parse. |
| WriterProperties.NewSampleFields | LabResults.DataLoader/LabDataWriter.cs:57-65 | The added sample has the next key, the barcode, the parsed clinic number, date and time, and the patient's key. |
| WriterProperties.AbortOnlyWhenCreating | LabResults.DataLoader/LabDataWriter.cs:42-76 | An exception comes only from creating a patient or sample whose field does not parse, or from the store query matching more than one row. |
| WriterProperties.UpdatedTwice | LabResults.DataLoader/LabDataWriter.cs:83-88 | Updating a result twice is updating it with the second record. |
| WriterProperties.PatientFoundAgain | LabResults.DataLoader/LabDataWriter.cs:29 | A patient added earlier in the batch is found in the context, and nothing is added. |
| WriterProperties.SampleFoundAgain | LabResults.DataLoader/LabDataWriter.cs:49 | A sample added earlier in the batch is found in the context, and nothing is added. |
| WriterProperties.UpsertAgain | LabResults.DataLoader/LabDataWriter.cs:69-108 | After a result is written, the same code for the same sample updates that row in place. |
| WriterProperties.SameKeysUpdateInPlace | LabResults.DataLoader/LabDataWriter.cs:23-109 | A second record with the same patient, barcode and test code updates one staged result in place and adds nothing. |
| WriterProperties.RepeatedRecordChangesNothing | LabResults.DataLoader/LabDataWriter.cs:23-109 | Processing the same record twice leaves the context as the first time did. |
| WriterInvariants.StepConsistent | LabResults.DataLoader/LabDataWriter.cs:23-109 | Each record keeps keys and barcodes unique across the database and the context, and keeps every staged row linked. |
| WriterInvariants.RunConsistent | LabResults.DataLoader/LabDataWriter.cs:23-110 | The whole loop keeps that invariant. |
| WriterInvariants.InitialConsistent | LabResults.DataLoader/LabDataWriter.cs:16-19 | A fresh context over a well-formed database satisfies it. |
| WriterInvariants.CommitWellFormed | LabResults.DataLoader/LabDataWriter.cs:112 | Saving a consistent context gives a well-formed database that keeps every stored patient, sample and result identity. |
| WriterInvariants.SavePreservesWellFormed | LabResults.DataLoader/LabDataWriter.cs:21-113 | A batch over a well-formed database leaves it well-formed, with stored rows kept. |
| WriterFindings.StoreFallbackCrossesSamples | LabResults.DataLoader/LabDataWriter.cs:74-76 | As written, a record for a second sample overwrites and saves the first sample's result with that code. |
| WriterFindings.StoreFallbackThrowsOnSharedCode | LabResults.DataLoader/LabDataWriter.cs:74-76 | As written, two stored results of other samples with the code make the query throw, and nothing is saved. |
| WriterFindings.CorrectedQueryKeepsSamplesApart | LabResults.DataLoader/LabDataWriter.cs:74-76 | Corrected, the same record creates a result for its own sample. |
| WriterFindings.CorrectedSaveKeepsOtherResult | LabResults.DataLoader/LabDataWriter.cs:74-112 | Corrected, the save keeps the other sample's result and adds the new one. |
| WriterFindings.CorrectedQueryIgnoresOtherSamples | LabResults.DataLoader/LabDataWriter.cs:74-76 | Corrected, results of other samples sharing the code do not make the query throw. |
| WriterFindings.CorrectedWritesRecordSample | LabResults.DataLoader/LabDataWriter.cs:49-109 | Corrected, every result a record updates or adds belongs to the sample with the record's barcode. |
| WriterFindings.AfternoonCollectionAborts | LabResults.DataLoader/LabDataWriter.cs:62 | As written, a new sample collected after 12:59 makes the record throw, leaving the context as it was. |
| WriterFindings.AfternoonCollectionAccepted | LabResults.DataLoader/LabDataWriter.cs:57-65 | Corrected, that sample is created with the collection time it carries. |
| Queries.Project | Labresults.Infrastructure/Readers/TestResultReader.cs:24-37 | A row takes clinic number, barcode, collection date and time from the sample, and code through references from the result. |
| Queries.GetTestResultsByPatientId | Labresults.Infrastructure/Readers/TestResultReader.cs:18-46 | A successful answer is never empty; an empty projection fails with "No test results found for patient with ID {id}.". |
| Queries.RowCountIsSumOverSamples | Labresults.Infrastructure/Readers/TestResultReader.cs:20-23 | A stored patient gets as many rows as its samples have results in total. |
| Queries.RowsAreThePatientsResults | Labresults.Infrastructure/Readers/TestResultReader.cs:20-37 | A row is returned exactly when it pairs one of the patient's samples with one of that sample's results; none comes from another patient. |
| Queries.UnknownPatientHasNoResults | Labresults.Infrastructure/Readers/TestResultReader.cs:20-43 | An unknown patient gets the NotFound error. |
| Queries.PatientWithoutResultsNotFound | Labresults.Infrastructure/Readers/TestResultReader.cs:40-43 | A patient whose samples have no results gets the NotFound error. |
| Queries.ToModel | Labresults.Infrastructure/Readers/PatientReader.cs:20-26 | A patient's model copies key, name, birth date and gender and leaves the results unset. |
| Queries.GetPatient | Labresults.Infrastructure/Readers/PatientReader.cs:18-34 | The lookup succeeds exactly when a patient has the key, returning that patient's model; otherwise it fails with "Patient with ID {id} not found.". |
| Queries.GetPatientFindsStored | Labresults.Infrastructure/Readers/PatientReader.cs:20-26 | In a well-formed database, the lookup by a stored patient's key returns that patient. |
| Queries.NameLeqTotal | Labresults.Infrastructure/Readers/PatientReader.cs:44 | Any two names are ordered one way or the other. |
| Queries.NameLeqTransitive | Labresults.Infrastructure/Readers/PatientReader.cs:44 | The name order is transitive. |
| Queries.NameLeqAntisymmetric | Labresults.Infrastructure/Readers/PatientReader.cs:44 | Names ordered both ways are equal. |
| Queries.InsertByNameSorted | Labresults.Infrastructure/Readers/PatientReader.cs:44 | Inserting into a name-sorted list keeps it sorted. |
| Queries.SortByName | Labresults.Infrastructure/Readers/PatientReader.cs:44 | The sort returns a permutation of its input, ascending by name. |
| Queries.GetPatients | Labresults.Infrastructure/Readers/PatientReader.cs:36-45 | The list has one model per stored patient, as a permutation of the stored patients' models, ascending by name. |
| Queries.PatientsListed | Labresults.Infrastructure/Readers/PatientReader.cs:38-44 | A model is listed exactly when it is a stored patient's model, and none carries results. |

## Left out

- File I/O, async and cancellation are left out. A file is its existence flag and its lines.
  The path only appears in the error.
- Reflection is replaced by an explicit list of the sixteen properties. `GetProperty(...,
  IgnoreCase)` is modelled as comparing ASCII upper-cased names.
- Culture-sensitive comparison and Unicode case mapping beyond ASCII are not modelled.
- Parsing.ParseDecimal: models only a leading sign, digits and an optional decimal point. The
  other forms that `NumberStyles.Any` accepts are not modelled: currency, thousands separators,
  exponents, parentheses and a trailing sign. So "5-" gives no value in the model and -5 in .NET.
- Parsing.ParseDecimal: the units and scale are unbounded. .NET's `decimal` holds at most
  79228162514264337593543950335 in magnitude and 28 fraction digits. Beyond that range
  `decimal.TryParse` fails, so the helper returns null where the model returns a value. Excess
  fraction digits are rounded in .NET and kept in the model. `Parsing.ParseDecimalRoundTrip`
  is stated over the unbounded values.
- Parsing `CollectionDate` without a culture, at `LabResults.DataLoader/LabDataWriter.cs:61`, is
  modelled as the invariant `yyyy-MM-dd` parse.
- Entity Framework is modelled by what the writer observes:
  - The context is the tracked additions and modifications.
  - The database is three tables in key order, with their AUTOINCREMENT sequences.
  - New sample and result keys are drawn from those sequences when staged, not at the save.
    This is not observable after the save.
- Relationship fix-up is modelled by its effect. `sample.TestResults` is taken to be every
  result the context tracks whose sample key is the sample's (`Reconciliation.FindTracked`).
  That covers the results added to the sample and the stored results loaded by the store query,
  which fix-up attaches to the sample they belong to. Stored results that were never loaded are
  not in the collection, since the sample is loaded without them.
- Reconciliation.Commit: a new patient whose PatientId field is 0 is saved under key 0, and so are
  the links of the samples added to it. In the source, `Patients.Id` is an AUTOINCREMENT key, so
  Entity Framework reads its default value 0 as unset. The save then stores the patient under a
  generated key and re-links its samples to it. After such a save the model finds a patient 0
  where the source reports NotFound, and a later batch with PatientId 0 reuses it where the
  source creates another patient. The generated key depends on the insert order and the table's
  sequence, which the source does not show.
- Reconciliation.Writer.SaveChanges: the same key-0 case as `Reconciliation.Commit`, which it
  follows.
- `Entities.FindPatient` returns the first match, which is `FirstOrDefault`. The writer's
  `SingleOrDefaultAsync` on the primary key can only throw in a database that violates the
  key. The writer's model assumes it does not.
- `Queries.GetTestResultsByPatientId`: the database does not promise the order of the rows. The
  model returns them sample after sample, in table order.
- `Queries.GetPatients`: patients with equal names come out in an order the database does not
  promise. The model sorts stably by insertion. Names compare by code point, as the database's
  default BINARY collation does.
- The web controllers, the exception middleware, the console program and the database migrations
  are not part of this model.

## Findings

| source | as written | input that shows it | evidently intended | confidence | as-written member | corrected member |
|---|---|---|---|---|---|---|
| LabResults.DataLoader/LabDataWriter.cs:74-76 | The store query for an existing result filters on `sample.Barcode == barcode`, which always holds there, so only the test code counts. | Stored samples A and B, and one stored result of A with code C. A record for B's barcode with code C overwrites A's result. If two other samples have a result with code C, `SingleOrDefaultAsync` throws and nothing is saved. | Filter on `tr.SampleId == sample.Id`, so that the record's own sample gets a new result. | not executed | WriterFindings.StoreFallbackCrossesSamples | WriterFindings.CorrectedWritesRecordSample |
| LabResults.DataLoader/LabDataWriter.cs:13 | The collection time is parsed with `hh\:mm`, the 12-hour clock. This matters if the files write times on the 24-hour clock, which is assumed here: nothing in the repository says so. | `ParseTimeHh("13:45")` fails, and a record creating a sample collected at 13:45 throws and aborts the batch. | Parse with `HH\:mm`. | not executed | WriterFindings.AfternoonCollectionAborts | Parsing.ParseTimeHHRoundTrip |
