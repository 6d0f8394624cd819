/**
 * The configurable reader of the web application (Labresults.Infrastructure LabDataReader): the
 * header is resolved by name, so the columns of the file may come in any order. Each configured
 * header is looked up, trimmed and upper-cased, in a dictionary of the file's header keys, and the
 * configured header with its underscores removed names the LabData property the column fills.
 */
module HeaderResolver {
  import opened Wrappers
  import opened Text
  import opened LabRecord
  import opened LineReader
  import opened Indices

  /** The key a header is looked up under: Trim().ToUpperInvariant(). */
  function HeaderKey(h: string): string {
    Upper(Trim(h))
  }

  /** The keys of a row of headers, column by column. */
  function HeaderKeys(headers: seq<string>): (r: seq<string>)
    ensures |r| == |headers|
    ensures forall k :: 0 <= k < |headers| ==> r[k] == HeaderKey(headers[k])
  {
    seq(|headers|, k requires 0 <= k < |headers| => HeaderKey(headers[k]))
  }

  /** No key occurs twice. */
  predicate DistinctKeys(keys: seq<string>) {
    forall i, j :: 0 <= i < j < |keys| ==> keys[i] != keys[j]
  }

  /**
   * ToDictionary(key -> index) over a row of keys: it fails with the first key that repeats an
   * earlier one, and otherwise sends each key to its column.
   */
  function IndexByKey(keys: seq<string>): Result<map<string, nat>, string> {
    if keys == [] then Success(map[])
    else
      var last := |keys| - 1;
      match IndexByKey(keys[..last])
      case Failure(key) => Failure(key)
      case Success(index) =>
        if keys[last] in index then Failure(keys[last]) else Success(index[keys[last] := last])
  }

  /**
   * The dictionary is built exactly when no key repeats; it then sends each key of the row to its
   * column and holds nothing else, and a failure names a key that occurs twice.
   */
  lemma {:induction false} IndexByKeySpec(keys: seq<string>)
    ensures IndexByKey(keys).Success? <==> DistinctKeys(keys)
    ensures IndexByKey(keys).Success? ==> var index := IndexByKey(keys).value;
      forall k :: 0 <= k < |keys| ==> keys[k] in index && index[keys[k]] == k
    ensures IndexByKey(keys).Success? ==> var index := IndexByKey(keys).value;
      forall key :: key in index ==> index[key] < |keys| && keys[index[key]] == key
    ensures IndexByKey(keys).Failure? ==> var key := IndexByKey(keys).error;
      exists i, j :: 0 <= i < j < |keys| && keys[i] == key && keys[j] == key
  {
    if keys != [] {
      var last := |keys| - 1;
      var front := keys[..last];
      IndexByKeySpec(front);
      assert forall k :: 0 <= k < last ==> front[k] == keys[k];
      match IndexByKey(front)
      case Failure(key) =>
        var i, j :| 0 <= i < j < |front| && front[i] == key && front[j] == key;
        assert keys[i] == key && keys[j] == key;
      case Success(index) =>
        if keys[last] in index {
          var i := index[keys[last]];
          assert keys[i] == keys[last];
        }
    }
  }

  /** The columns a property map already binds (the keys of the dictionary being filled). */
  function Columns(pm: PropertyMap): set<nat> {
    set k | 0 <= k < |pm| :: pm[k].column
  }

  /** Binding one more column adds that column and no other. */
  lemma ColumnsAppend(pm: PropertyMap, b: Binding)
    ensures Columns(pm + [b]) == Columns(pm) + {b.column}
  {
    var pm' := pm + [b];
    assert forall k :: 0 <= k < |pm| ==> pm'[k] == pm[k];
    assert pm'[|pm|] == b;
  }

  /** A configured header with the two things the loop derives from it: its key and its property. */
  datatype Configured = Configured(header: string, key: string, property: Option<Field>)

  /** What the loop derives from one configured header: Trim().ToUpperInvariant(), and GetProperty of Replace("_", ""). */
  function Configure(header: string): (c: Configured)
    ensures c.header == header && c.key == HeaderKey(header)
    ensures c.property.Some? ==> FieldKey(c.property.value) == Upper(RemoveUnderscores(header))
    ensures c.property.None? ==> forall f: Field :: FieldKey(f) != Upper(RemoveUnderscores(header))
  {
    Configured(header, HeaderKey(header), FieldNamed(RemoveUnderscores(header)))
  }

  /** The configured headers, each with its key and property. */
  function ConfigureAll(expected: seq<string>): (r: seq<Configured>)
    ensures |r| == |expected|
    ensures forall i :: 0 <= i < |expected| ==> r[i] == Configure(expected[i])
  {
    seq(|expected|, i requires 0 <= i < |expected| => Configure(expected[i]))
  }

  /** A configured header can be bound: its key is among the file's, and it names a property. */
  predicate Resolves(c: Configured, keys: map<string, nat>) {
    c.key in keys && c.property.Some?
  }

  /** One turn of the loop over the configured headers, in the order of its three checks. */
  function BindExpected(c: Configured, keys: map<string, nat>, pm: PropertyMap): (r: Result<PropertyMap, ReadError>)
    ensures r.Success? <==> Resolves(c, keys) && keys[c.key] !in Columns(pm)
    ensures r.Success? ==> r.value == pm + [Binding(keys[c.key], c.property.value)]
    ensures c.key !in keys ==> r == Failure(ExpectedHeaderMissing(c.header))
    ensures c.key in keys && c.property.None? ==> r == Failure(ExpectedHeaderNotAProperty(c.header))
    ensures r.Failure? ==> r.error.ExpectedHeaderMissing? || r.error.ExpectedHeaderNotAProperty? || r.error.ColumnBoundTwice?
  {
    if c.key !in keys then Failure(ExpectedHeaderMissing(c.header))
    else
      match c.property
      case None => Failure(ExpectedHeaderNotAProperty(c.header))
      case Some(f) =>
        var column := keys[c.key];
        if column in Columns(pm) then Failure(ColumnBoundTwice(column))
        else Success(pm + [Binding(column, f)])
  }

  /** The column a resolvable configured header is bound to. */
  function ColumnFor(c: Configured, keys: map<string, nat>): nat
    requires Resolves(c, keys)
  {
    keys[c.key]
  }

  /**
   * The loop over the configured headers. It succeeds exactly when every configured header
   * resolves to a column of its own, and then binds the i-th configured header's column to the
   * property its underscore-free name denotes.
   */
  function BindAll(cs: seq<Configured>, keys: map<string, nat>): (r: Result<PropertyMap, ReadError>)
    ensures r.Success? <==>
      (forall i :: 0 <= i < |cs| ==> Resolves(cs[i], keys))
      && (forall i, j :: 0 <= i < j < |cs| && Resolves(cs[i], keys) && Resolves(cs[j], keys) ==>
            ColumnFor(cs[i], keys) != ColumnFor(cs[j], keys))
    ensures r.Success? ==> |r.value| == |cs|
    ensures r.Failure? ==> r.error.ExpectedHeaderMissing? || r.error.ExpectedHeaderNotAProperty? || r.error.ColumnBoundTwice?
    ensures r.Success? ==> forall i :: 0 <= i < |cs| ==>
      Resolves(cs[i], keys) && r.value[i] == Binding(ColumnFor(cs[i], keys), cs[i].property.value)
  {
    if cs == [] then Success([])
    else
      var last := |cs| - 1;
      var front := cs[..last];
      assert forall k :: 0 <= k < last ==> front[k] == cs[k];
      match BindAll(front, keys)
      case Failure(e) => Failure(e)
      case Success(pm) =>
        assert forall c :: c in Columns(pm) <==> exists k :: 0 <= k < last && ColumnFor(cs[k], keys) == c;
        BindExpected(cs[last], keys, pm)
  }

  /** One more turn of the loop after a prefix that succeeded. */
  lemma BindAllStep(cs: seq<Configured>, keys: map<string, nat>, i: nat, pm: PropertyMap)
    requires i < |cs|
    requires BindAll(cs[..i], keys) == Success(pm)
    ensures BindAll(cs[..i + 1], keys) == BindExpected(cs[i], keys, pm)
  {
    assert cs[..i + 1][..i] == cs[..i];
  }

  /** Once a prefix of the configured headers fails, the whole loop fails with that error. */
  lemma {:induction false} BindAllPrefixFailure(cs: seq<Configured>, keys: map<string, nat>, m: nat)
    requires m <= |cs|
    requires BindAll(cs[..m], keys).Failure?
    ensures BindAll(cs, keys) == BindAll(cs[..m], keys)
    decreases |cs| - m
  {
    if m < |cs| {
      var front := cs[..|cs| - 1];
      assert front[..m] == cs[..m];
      BindAllPrefixFailure(front, keys, m);
    } else {
      assert cs[..m] == cs;
    }
  }

  /**
   * The error the loop reports belongs to the first configured header that cannot be bound:
   * when all headers before position i bind, the loop fails as header i fails.
   */
  lemma BindAllFailsAt(cs: seq<Configured>, keys: map<string, nat>, i: nat)
    requires i < |cs|
    requires BindAll(cs[..i], keys).Success?
    requires BindExpected(cs[i], keys, BindAll(cs[..i], keys).value).Failure?
    ensures BindAll(cs, keys) == BindExpected(cs[i], keys, BindAll(cs[..i], keys).value)
  {
    assert cs[..i + 1][..i] == cs[..i];
    BindAllPrefixFailure(cs, keys, i + 1);
  }

  /** Once a prefix of the row repeats a key, ToDictionary fails with that key. */
  lemma {:induction false} IndexByKeyPrefixFailure(keys: seq<string>, m: nat)
    requires m <= |keys|
    requires IndexByKey(keys[..m]).Failure?
    ensures IndexByKey(keys) == IndexByKey(keys[..m])
    decreases |keys| - m
  {
    if m < |keys| {
      var front := keys[..|keys| - 1];
      assert front[..m] == keys[..m];
      IndexByKeyPrefixFailure(front, m);
    } else {
      assert keys[..m] == keys;
    }
  }

  /** The configured headers bound against a row of header keys. */
  function ResolveRow(cs: seq<Configured>, row: seq<string>): (r: Result<PropertyMap, ReadError>)
    ensures r.Success? ==> FitsColumns(r.value, |row|)
    ensures r.Failure? ==>
      r.error.DuplicateHeaderKey? || r.error.ExpectedHeaderMissing?
      || r.error.ExpectedHeaderNotAProperty? || r.error.ColumnBoundTwice?
  {
    match IndexByKey(row)
    case Failure(key) => Failure(DuplicateHeaderKey(key))
    case Success(keys) =>
      IndexByKeySpec(row);
      BindAll(cs, keys)
  }

  /** BuildPropertyMap: ToDictionary over the file's headers, then the loop over the configured ones. */
  function ResolveHeaders(expected: seq<string>, actual: seq<string>): (r: Result<PropertyMap, ReadError>)
    ensures r.Success? ==> FitsColumns(r.value, |actual|)
    ensures r.Failure? ==>
      r.error.DuplicateHeaderKey? || r.error.ExpectedHeaderMissing?
      || r.error.ExpectedHeaderNotAProperty? || r.error.ColumnBoundTwice?
  {
    ResolveRow(ConfigureAll(expected), HeaderKeys(actual))
  }

  /**
   * The checks on the header line: split on '|' with entries trimmed, the column count against
   * the configured headers, then the property map. A header that passes binds every one of its
   * columns exactly once.
   */
  function ValidateHeader(expected: seq<string>, line: string): (r: Result<ValidHeader, ReadError>)
    ensures r.Success? ==> r.value.width == |expected| && Columns(r.value.pm) == Range(|expected|)
    ensures r.Success? ==> forall i, j :: 0 <= i < j < |r.value.pm| ==> r.value.pm[i].column != r.value.pm[j].column
    ensures r.Failure? ==> !r.error.FileNotFound? && !r.error.NoHeaderLine?
  {
    var actual := SplitTrimmed(line, '|');
    if |actual| != |expected| then Failure(ColumnCountMismatch(|expected|, |actual|))
    else
      match ResolveHeaders(expected, actual)
      case Failure(e) => Failure(e)
      case Success(pm) =>
        EveryColumnBoundOnce(expected, actual);
        Success(Header(|actual|, pm))
  }

  /** ReadDataFromFileAsync with the configured headers, as a function of the file's existence and lines. */
  function Read(expected: seq<string>, fileExists: bool, path: string, lines: seq<string>): Result<seq<LabData>, ReadError> {
    ReadFile(fileExists, path, lines, line => ValidateHeader(expected, line))
  }

  /** One more key of the row after a prefix without repeats. */
  lemma IndexByKeyStep(row: seq<string>, k: nat, keys: map<string, nat>)
    requires k < |row|
    requires IndexByKey(row[..k]) == Success(keys)
    ensures IndexByKey(row[..k + 1]) == if row[k] in keys then Failure(row[k]) else Success(keys[row[k] := k])
  {
    assert row[..k + 1][..k] == row[..k];
  }

  /** The ToDictionary pass over the file's headers: key -> column, failing on a repeated key. */
  method IndexHeaders(actual: seq<string>) returns (r: Result<map<string, nat>, string>)
    ensures r == IndexByKey(HeaderKeys(actual))
  {
    var row := HeaderKeys(actual);
    var keys: map<string, nat> := map[];
    for k := 0 to |row|
      invariant IndexByKey(row[..k]) == Success(keys)
    {
      IndexByKeyStep(row, k, keys);
      var key := row[k];
      if key in keys {
        IndexByKeyPrefixFailure(row, k + 1);
        return Failure(key);
      }
      keys := keys[key := k];
    }
    assert row[..|row|] == row;
    r := Success(keys);
  }

  /** The for loop over the configured headers, filling the column-to-property map. */
  method BindConfigured(expected: seq<string>, keys: map<string, nat>) returns (r: Result<PropertyMap, ReadError>)
    ensures r == BindAll(ConfigureAll(expected), keys)
  {
    ghost var cs := ConfigureAll(expected);
    var pm: PropertyMap := [];
    var used: set<nat> := {};
    for i := 0 to |expected|
      invariant BindAll(cs[..i], keys) == Success(pm)
      invariant used == Columns(pm)
    {
      BindAllStep(cs, keys, i, pm);
      var header := expected[i];
      var key := HeaderKey(header);
      var property := FieldNamed(RemoveUnderscores(header));
      assert cs[i] == Configured(header, key, property);
      if key !in keys {
        BindAllFailsAt(cs, keys, i);
        return Failure(ExpectedHeaderMissing(header));
      }
      var column := keys[key];
      if property.None? {
        BindAllFailsAt(cs, keys, i);
        return Failure(ExpectedHeaderNotAProperty(header));
      }
      if column in used {
        BindAllFailsAt(cs, keys, i);
        return Failure(ColumnBoundTwice(column));
      }
      ColumnsAppend(pm, Binding(column, property.value));
      pm := pm + [Binding(column, property.value)];
      used := used + {column};
    }
    assert cs[..|expected|] == cs;
    r := Success(pm);
  }

  /** BuildPropertyMap: the ToDictionary pass, then the loop over the configured headers. */
  method BuildPropertyMap(expected: seq<string>, actual: seq<string>) returns (r: Result<PropertyMap, ReadError>)
    ensures r == ResolveHeaders(expected, actual)
  {
    var keys := IndexHeaders(actual);
    if keys.Failure? {
      return Failure(DuplicateHeaderKey(keys.error));
    }
    r := BindConfigured(expected, keys.value);
  }

  /** ReadDataFromFileAsync: the header search, the count check, the property map, the data loop. */
  method ReadDataFromFile(expected: seq<string>, fileExists: bool, path: string, lines: seq<string>)
    returns (r: Result<seq<LabData>, ReadError>)
    ensures r == Read(expected, fileExists, path, lines)
  {
    if !fileExists {
      return Failure(FileNotFound(path));
    }
    var header := FindHeader(lines);
    if header.None? {
      return Failure(NoHeaderLine);
    }
    var h := header.value;
    var actual := SplitTrimmed(lines[h], '|');
    if |actual| != |expected| {
      return Failure(ColumnCountMismatch(|expected|, |actual|));
    }
    var map_ := BuildPropertyMap(expected, actual);
    if map_.Failure? {
      return Failure(map_.error);
    }
    assert ValidateHeader(expected, lines[h]) == Success(Header(|actual|, map_.value));
    var records := ReadDataLines(lines, h + 1, |actual|, map_.value);
    r := Success(records);
  }

  /** A loop over as many configured headers as the file has columns binds every column once. */
  lemma BindAllCoversColumns(cs: seq<Configured>, keys: map<string, nat>, n: nat)
    requires |cs| == n
    requires forall key :: key in keys ==> keys[key] < n
    requires BindAll(cs, keys).Success?
    ensures var pm := BindAll(cs, keys).value;
      (forall i, j :: 0 <= i < j < |pm| ==> pm[i].column != pm[j].column) && Columns(pm) == Range(n)
  {
    var pm := BindAll(cs, keys).value;
    var columns := seq(|pm|, k requires 0 <= k < |pm| => pm[k].column);
    assert IsPermutation(columns, n);
    PermutationOnto(columns, n);
    assert Elements(columns) == Columns(pm);
  }

  /**
   * On success every column of the header is bound exactly once: the map holds one entry per
   * configured header, no column twice, and (as the file has as many columns as headers are
   * configured) every column of the file.
   */
  lemma EveryColumnBoundOnce(expected: seq<string>, actual: seq<string>)
    requires |actual| == |expected|
    requires ResolveHeaders(expected, actual).Success?
    ensures var pm := ResolveHeaders(expected, actual).value;
      |pm| == |actual|
      && (forall i, j :: 0 <= i < j < |pm| ==> pm[i].column != pm[j].column)
      && Columns(pm) == Range(|actual|)
  {
    var row := HeaderKeys(actual);
    var keys := IndexByKey(row).value;
    IndexByKeySpec(row);
    BindAllCoversColumns(ConfigureAll(expected), keys, |actual|);
  }

  /** ResolvedEntry, stated over the configured headers and a row of keys. */
  lemma ResolvedRowEntry(cs: seq<Configured>, row: seq<string>, i: nat)
    requires ResolveRow(cs, row).Success?
    requires i < |cs|
    ensures var pm := ResolveRow(cs, row).value;
      |pm| == |cs| && pm[i].column < |row| && row[pm[i].column] == cs[i].key
      && cs[i].property.Some? && pm[i].field == cs[i].property.value
  {
    var keys := IndexByKey(row).value;
    IndexByKeySpec(row);
    assert ResolveRow(cs, row) == BindAll(cs, keys);
  }

  /**
   * The i-th entry of a resolved map binds the column whose header has the i-th configured
   * header's key to the property that header names.
   */
  lemma ResolvedEntry(expected: seq<string>, actual: seq<string>, i: nat)
    requires ResolveHeaders(expected, actual).Success?
    requires i < |expected|
    ensures var pm := ResolveHeaders(expected, actual).value;
      |pm| == |expected| && pm[i].column < |actual|
      && HeaderKey(actual[pm[i].column]) == HeaderKey(expected[i])
      && pm[i].field == FieldNamed(RemoveUnderscores(expected[i])).value
  {
    var row := HeaderKeys(actual);
    var cs := ConfigureAll(expected);
    ResolvedRowEntry(cs, row, i);
  }

  /**
   * Each record property the i-th configured header names holds the raw field of the column whose
   * header carries the same key, unless a later configured header names the same property.
   */
  lemma FieldComesFromMatchingColumn(expected: seq<string>, actual: seq<string>, fields: seq<string>, i: nat)
    requires |fields| == |actual|
    requires ResolveHeaders(expected, actual).Success?
    requires i < |expected|
    requires var pm := ResolveHeaders(expected, actual).value;
      forall j :: i < j < |pm| ==> pm[j].field != FieldNamed(RemoveUnderscores(expected[i])).value
    ensures var pm := ResolveHeaders(expected, actual).value;
      exists c :: 0 <= c < |actual| && HeaderKey(actual[c]) == HeaderKey(expected[i])
        && MapFields(fields, pm).Get(FieldNamed(RemoveUnderscores(expected[i])).value) == fields[c]
  {
    var pm := ResolveHeaders(expected, actual).value;
    ResolvedEntry(expected, actual, i);
    LastBindingWins(pm, i);
    MapFieldsGet(fields, pm, pm[i].field);
    assert 0 <= pm[i].column < |actual|;
  }

  /** The last entry of a map that names a property is the one that decides it. */
  lemma {:induction false} LastBindingWins(pm: PropertyMap, i: nat)
    requires i < |pm|
    requires forall j :: i < j < |pm| ==> pm[j].field != pm[i].field
    ensures ColumnOf(pm, pm[i].field) == Some(pm[i].column)
  {
    if i < |pm| - 1 {
      LastBindingWins(pm[..|pm| - 1], i);
    }
  }

  /** Rearranging a row of keys keeps it free of repeats exactly when it was. */
  lemma PermuteKeepsDistinct(row: seq<string>, perm: seq<nat>)
    requires IsPermutation(perm, |row|)
    ensures DistinctKeys(Permute(row, perm)) <==> DistinctKeys(row)
  {
    var n := |row|;
    var row' := Permute(row, perm);
    PermutationOnto(perm, n);
    if DistinctKeys(row) {
      forall i, j | 0 <= i < j < n ensures row'[i] != row'[j] {
        if perm[i] < perm[j] {
          assert row[perm[i]] != row[perm[j]];
        } else {
          assert perm[i] != perm[j];
          assert row[perm[j]] != row[perm[i]];
        }
      }
    }
    if DistinctKeys(row') {
      forall i, j | 0 <= i < j < n ensures row[i] != row[j] {
        assert i in Elements(perm) && j in Elements(perm);
        var i' :| 0 <= i' < n && perm[i'] == i;
        var j' :| 0 <= j' < n && perm[j'] == j;
        if i' < j' {
          assert row'[i'] != row'[j'];
        } else {
          assert row'[j'] != row'[i'];
        }
      }
    }
  }

  /** Two dictionaries that each index a row, one row a rearrangement of the other. */
  lemma {:induction false} Reindexed(row: seq<string>, row': seq<string>, perm: seq<nat>,
                                     keys: map<string, nat>, keys': map<string, nat>)
    requires |row'| == |perm|
    requires forall k :: 0 <= k < |perm| ==> perm[k] < |row| && row'[k] == row[perm[k]]
    requires forall c :: 0 <= c < |row| ==> c in Elements(perm)
    requires forall k :: 0 <= k < |row| ==> row[k] in keys && keys[row[k]] == k
    requires forall key :: key in keys ==> keys[key] < |row| && row[keys[key]] == key
    requires forall k :: 0 <= k < |row'| ==> row'[k] in keys' && keys'[row'[k]] == k
    requires forall key :: key in keys' ==> keys'[key] < |row'| && row'[keys'[key]] == key
    ensures forall key :: key in keys' <==> key in keys
    ensures forall key :: key in keys ==> perm[keys'[key]] == keys[key]
  {
    forall key | key in keys ensures key in keys' && perm[keys'[key]] == keys[key] {
      var c := keys[key];
      assert c in Elements(perm);
      var k :| 0 <= k < |perm| && perm[k] == c;
      assert row'[k] == key;
    }
    forall key | key in keys' ensures key in keys {
      assert row'[keys'[key]] == row[perm[keys'[key]]];
    }
  }

  /**
   * Binding the configured headers against the dictionary of a rearranged row succeeds exactly
   * when binding them against the original does, and reads the same field of each line.
   */
  lemma BindAllReindexed(cs: seq<Configured>, keys: map<string, nat>, keys': map<string, nat>, perm: seq<nat>)
    requires forall key :: key in keys' <==> key in keys
    requires forall key :: key in keys ==> keys'[key] < |perm| && perm[keys'[key]] == keys[key]
    requires forall a, b :: a in keys && b in keys && keys[a] == keys[b] ==> a == b
    ensures BindAll(cs, keys').Success? <==> BindAll(cs, keys).Success?
    ensures BindAll(cs, keys).Success? ==>
      var pm, pm' := BindAll(cs, keys).value, BindAll(cs, keys').value;
      |pm'| == |pm| && forall k :: 0 <= k < |pm| ==> pm'[k].field == pm[k].field && perm[pm'[k].column] == pm[k].column
  {
    assert forall i :: 0 <= i < |cs| ==> (Resolves(cs[i], keys) <==> Resolves(cs[i], keys'));
    assert forall i, j :: 0 <= i < j < |cs| && Resolves(cs[i], keys) && Resolves(cs[j], keys) ==>
      (ColumnFor(cs[i], keys) != ColumnFor(cs[j], keys) <==> ColumnFor(cs[i], keys') != ColumnFor(cs[j], keys'));
  }

  /** The keys of a rearranged header row are the rearranged keys. */
  lemma HeaderKeysPermute(actual: seq<string>, perm: seq<nat>)
    requires IsPermutation(perm, |actual|)
    ensures HeaderKeys(Permute(actual, perm)) == Permute(HeaderKeys(actual), perm)
  {
  }

  /** ResolveIgnoresColumnOrder, stated over the configured headers and a row of keys. */
  lemma ResolveRowIgnoresColumnOrder(cs: seq<Configured>, row: seq<string>, fields: seq<string>, perm: seq<nat>)
    requires |fields| == |row|
    requires IsPermutation(perm, |row|)
    ensures ResolveRow(cs, Permute(row, perm)).Success? <==> ResolveRow(cs, row).Success?
    ensures ResolveRow(cs, row).Success? ==>
      MapFields(Permute(fields, perm), ResolveRow(cs, Permute(row, perm)).value) == MapFields(fields, ResolveRow(cs, row).value)
  {
    var row' := Permute(row, perm);
    PermuteKeepsDistinct(row, perm);
    IndexByKeySpec(row);
    IndexByKeySpec(row');
    if DistinctKeys(row) {
      var keys, keys' := IndexByKey(row).value, IndexByKey(row').value;
      assert ResolveRow(cs, row) == BindAll(cs, keys);
      assert ResolveRow(cs, row') == BindAll(cs, keys');
      BindAllPermuted(cs, row, fields, perm, keys, keys');
    } else {
      assert ResolveRow(cs, row).Failure? && ResolveRow(cs, row').Failure?;
    }
  }

  /** The dictionaries of a row and of its rearrangement bind the configured headers alike. */
  lemma BindAllPermuted(cs: seq<Configured>, row: seq<string>, fields: seq<string>, perm: seq<nat>,
                        keys: map<string, nat>, keys': map<string, nat>)
    requires |fields| == |row|
    requires IsPermutation(perm, |row|)
    requires IndexByKey(row) == Success(keys) && IndexByKey(Permute(row, perm)) == Success(keys')
    requires forall key :: key in keys ==> keys[key] < |row|
    requires forall key :: key in keys' ==> keys'[key] < |row|
    ensures BindAll(cs, keys').Success? <==> BindAll(cs, keys).Success?
    ensures BindAll(cs, keys).Success? ==>
      MapFields(Permute(fields, perm), BindAll(cs, keys').value) == MapFields(fields, BindAll(cs, keys).value)
  {
    PermutationOnto(perm, |row|);
    IndexByKeySpec(row);
    IndexByKeySpec(Permute(row, perm));
    Reindexed(row, Permute(row, perm), perm, keys, keys');
    IndexByKeyInjective(row);
    BindAllReindexed(cs, keys, keys', perm);
    if BindAll(cs, keys).Success? {
      SameBindingsSameRecord(cs, keys, keys', fields, perm);
    }
  }

  /** Bindings that agree up to the rearrangement read the same record from the rearranged line. */
  lemma SameBindingsSameRecord(cs: seq<Configured>, keys: map<string, nat>, keys': map<string, nat>,
                               fields: seq<string>, perm: seq<nat>)
    requires forall key :: key in keys ==> keys[key] < |fields|
    requires forall key :: key in keys' ==> keys'[key] < |perm|
    requires forall k :: 0 <= k < |perm| ==> perm[k] < |fields|
    requires BindAll(cs, keys).Success? && BindAll(cs, keys').Success?
    requires var pm, pm' := BindAll(cs, keys).value, BindAll(cs, keys').value;
      |pm'| == |pm| && forall k :: 0 <= k < |pm| ==> pm'[k].field == pm[k].field && perm[pm'[k].column] == pm[k].column
    ensures MapFields(Permute(fields, perm), BindAll(cs, keys').value) == MapFields(fields, BindAll(cs, keys).value)
  {
    var pm, pm' := BindAll(cs, keys).value, BindAll(cs, keys').value;
    var fields' := Permute(fields, perm);
    assert FitsColumns(pm, |fields|);
    assert FitsColumns(pm', |fields'|);
    MapFieldsSameEntries(fields', pm', fields, pm);
  }

  /** Distinct keys sit at distinct columns of the dictionary. */
  lemma IndexByKeyInjective(row: seq<string>)
    requires IndexByKey(row).Success?
    ensures var keys := IndexByKey(row).value;
      forall a, b :: a in keys && b in keys && keys[a] == keys[b] ==> a == b
  {
    var keys := IndexByKey(row).value;
    IndexByKeySpec(row);
    forall a, b | a in keys && b in keys && keys[a] == keys[b] ensures a == b {
      assert row[keys[a]] == a && row[keys[b]] == b;
    }
  }

  /**
   * The column order of the file does not matter: rearranging the header's columns and every
   * data line's fields the same way resolves exactly when the original does, and gives the same
   * record.
   */
  lemma ResolveIgnoresColumnOrder(expected: seq<string>, actual: seq<string>, fields: seq<string>, perm: seq<nat>)
    requires |fields| == |actual|
    requires IsPermutation(perm, |actual|)
    ensures ResolveHeaders(expected, Permute(actual, perm)).Success? <==> ResolveHeaders(expected, actual).Success?
    ensures ResolveHeaders(expected, actual).Success? ==>
      MapFields(Permute(fields, perm), ResolveHeaders(expected, Permute(actual, perm)).value)
      == MapFields(fields, ResolveHeaders(expected, actual).value)
  {
    HeaderKeysPermute(actual, perm);
    ResolveRowIgnoresColumnOrder(ConfigureAll(expected), HeaderKeys(actual), fields, perm);
  }
}
