/**
 * The two readers side by side: the infrastructure reader configured with the sixteen fixed
 * headers accepts every header row the positional reader accepts and then reads the same
 * records; it also accepts the fixed headers in any order, which the positional reader rejects.
 */
module ReaderComparison {
  import opened Wrappers
  import opened Text
  import opened LabRecord
  import opened LineReader
  import opened Indices
  import HeaderResolver
  import PositionalReader

  /** The fixed headers carry no surrounding white space. */
  lemma ExpectedHeadersTrimmedLow(k: nat)
    requires k < 8
    ensures Trim(PositionalReader.ExpectedHeaders[k]) == PositionalReader.ExpectedHeaders[k]
  {
    var h := PositionalReader.ExpectedHeaders[k];
    assert !IsWhiteSpace(h[0]) && !IsWhiteSpace(h[|h| - 1]);
    TrimTrimmed(h);
  }

  lemma ExpectedHeadersTrimmedHigh(k: nat)
    requires 8 <= k < |PositionalReader.ExpectedHeaders|
    ensures Trim(PositionalReader.ExpectedHeaders[k]) == PositionalReader.ExpectedHeaders[k]
  {
    var h := PositionalReader.ExpectedHeaders[k];
    assert !IsWhiteSpace(h[0]) && !IsWhiteSpace(h[|h| - 1]);
    TrimTrimmed(h);
  }

  lemma ExpectedHeadersTrimmed(k: nat)
    requires k < |PositionalReader.ExpectedHeaders|
    ensures Trim(PositionalReader.ExpectedHeaders[k]) == PositionalReader.ExpectedHeaders[k]
  {
    if k < 8 {
      ExpectedHeadersTrimmedLow(k);
    } else {
      ExpectedHeadersTrimmedHigh(k);
    }
  }

  /** Upper-cased, the fixed headers are sixteen distinct keys. */
  lemma ExpectedKeysDistinct(row: seq<string>)
    requires |row| == |PositionalReader.ExpectedHeaders|
    requires forall i :: 0 <= i < |row| ==> row[i] == Upper(PositionalReader.ExpectedHeaders[i])
    ensures HeaderResolver.DistinctKeys(row)
  {
    forall i, j | 0 <= i < j < |row|
      ensures row[i] != row[j]
    {
      PositionalReader.MovedHeaderMismatch(i, j);
    }
  }

  /** Each fixed header, configured, has its upper-case form as key and the property listed at its position. */
  lemma ExpectedConfigured(cs: seq<HeaderResolver.Configured>)
    requires cs == HeaderResolver.ConfigureAll(PositionalReader.ExpectedHeaders)
    ensures |cs| == |PositionalReader.ExpectedFields|
    ensures forall i :: 0 <= i < |cs| ==>
      cs[i].key == Upper(PositionalReader.ExpectedHeaders[i]) && cs[i].property == Some(PositionalReader.ExpectedFields[i])
  {
    forall i | 0 <= i < |cs|
      ensures cs[i].key == Upper(PositionalReader.ExpectedHeaders[i])
      ensures cs[i].property == Some(PositionalReader.ExpectedFields[i])
    {
      ExpectedHeadersTrimmed(i);
      PositionalReader.ExpectedHeadersResolve(i);
    }
  }

  /** Configured headers that each resolve to their own position bind into the canonical map. */
  lemma BindAllCanonical(cs: seq<HeaderResolver.Configured>, keys: map<string, nat>)
    requires |cs| == |PositionalReader.ExpectedFields|
    requires forall i :: 0 <= i < |cs| ==>
      HeaderResolver.Resolves(cs[i], keys) && keys[cs[i].key] == i && cs[i].property == Some(PositionalReader.ExpectedFields[i])
    ensures HeaderResolver.BindAll(cs, keys) == Success(PositionalReader.CanonicalMap)
  {
    assert forall i :: 0 <= i < |cs| ==> HeaderResolver.ColumnFor(cs[i], keys) == i;
    var pm := HeaderResolver.BindAll(cs, keys).value;
    assert pm == PositionalReader.CanonicalMap;
  }

  /** The fixed headers, configured, bound against the row of their upper-case forms give the canonical map. */
  lemma ResolveRowCanonical(row: seq<string>)
    requires |row| == |PositionalReader.ExpectedHeaders|
    requires forall i :: 0 <= i < |row| ==> row[i] == Upper(PositionalReader.ExpectedHeaders[i])
    ensures HeaderResolver.ResolveRow(HeaderResolver.ConfigureAll(PositionalReader.ExpectedHeaders), row)
      == Success(PositionalReader.CanonicalMap)
  {
    ExpectedKeysDistinct(row);
    HeaderResolver.IndexByKeySpec(row);
    var keys := HeaderResolver.IndexByKey(row).value;
    var cs := HeaderResolver.ConfigureAll(PositionalReader.ExpectedHeaders);
    ExpectedConfigured(cs);
    forall i | 0 <= i < |cs|
      ensures HeaderResolver.Resolves(cs[i], keys) && keys[cs[i].key] == i
    {
      assert cs[i].key == row[i];
    }
    BindAllCanonical(cs, keys);
  }

  /**
   * The resolver configured with the fixed headers, given trimmed headers each equal to the fixed
   * one at its position ignoring case, binds column i to the property listed at position i:
   * the positional reader's map.
   */
  lemma ResolverOnMatchingRow(actual: seq<string>)
    requires |actual| == |PositionalReader.ExpectedHeaders|
    requires forall i :: 0 <= i < |actual| ==>
      EqualsIgnoreCase(actual[i], PositionalReader.ExpectedHeaders[i]) && Trim(actual[i]) == actual[i]
    ensures HeaderResolver.ResolveHeaders(PositionalReader.ExpectedHeaders, actual) == Success(PositionalReader.CanonicalMap)
  {
    var row := HeaderResolver.HeaderKeys(actual);
    assert forall i :: 0 <= i < |row| ==> row[i] == Upper(PositionalReader.ExpectedHeaders[i]);
    ResolveRowCanonical(row);
  }

  /**
   * Wherever the positional reader reads a file, the infrastructure reader configured with the
   * sixteen fixed headers reads the same records from it.
   */
  lemma PositionalAgreesWithResolver(fileExists: bool, path: string, lines: seq<string>)
    requires PositionalReader.Read(fileExists, path, lines).Success?
    ensures HeaderResolver.Read(PositionalReader.ExpectedHeaders, fileExists, path, lines)
      == PositionalReader.Read(fileExists, path, lines)
  {
    var h := HeaderIndex(lines).value;
    var actual := SplitTrimmed(lines[h], '|');
    PositionalReader.ValidateFieldsSpec(actual);
    forall i | 0 <= i < |actual|
      ensures Trim(actual[i]) == actual[i]
    {
      TrimIdempotent(Split(lines[h], '|')[i]);
    }
    ResolverOnMatchingRow(actual);
    var header := LineReader.Header(|actual|, PositionalReader.CanonicalMap);
    assert HeaderResolver.ValidateHeader(PositionalReader.ExpectedHeaders, lines[h]) == Success(header);
    assert PositionalReader.ValidateHeader(lines[h]) == Success(header);
  }

  /**
   * The fixed headers in another order, the first moved one at position k: the positional
   * reader rejects them at k, while the resolver accepts them and reads every data line into
   * the record the positional reader makes of the line with its columns put back in order.
   */
  lemma ReorderedHeaderSplitsReaders(perm: seq<nat>, k: nat, fields: seq<string>)
    requires IsPermutation(perm, |PositionalReader.ExpectedHeaders|)
    requires k < |perm| && perm[k] != k && forall j :: 0 <= j < k ==> perm[j] == j
    requires |fields| == |PositionalReader.ExpectedHeaders|
    ensures PositionalReader.ValidateFields(Permute(PositionalReader.ExpectedHeaders, perm)).Failure?
    ensures HeaderResolver.ResolveHeaders(PositionalReader.ExpectedHeaders, Permute(PositionalReader.ExpectedHeaders, perm)).Success?
    ensures MapFields(Permute(fields, perm),
                      HeaderResolver.ResolveHeaders(PositionalReader.ExpectedHeaders, Permute(PositionalReader.ExpectedHeaders, perm)).value)
      == MapFields(fields, PositionalReader.CanonicalMap)
  {
    var expected := PositionalReader.ExpectedHeaders;
    PositionalReader.ReorderedHeaderRejected(perm, k);
    forall i | 0 <= i < |expected|
      ensures Trim(expected[i]) == expected[i]
    {
      ExpectedHeadersTrimmed(i);
    }
    ResolverOnMatchingRow(expected);
    HeaderResolver.ResolveIgnoresColumnOrder(expected, expected, fields, perm);
  }
}
