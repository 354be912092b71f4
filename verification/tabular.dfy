/** The conversion of a batch of documents into CSV records and the name of
    the file they go to (main.go). */
module Tabular {
  import opened Strings
  import opened Documents

  /** One CSV record: the fields handed to one `csv.Writer.Write` call. */
  type Record = seq<string>

  /** The local files the converter writes, each as its records. */
  type Files = map<string, seq<Record>>

  /** The escaped ampersand that string cells are cleaned of. */
  const EscapedAmp: string := "&amp;"

  // ---------------------------------------------------------------------------
  // Cells
  // ---------------------------------------------------------------------------

  /** `strings.ReplaceAll(s, "&amp;", "&")`: every occurrence found in one
      left-to-right pass shrinks the text by four characters, and the text is
      returned as it was exactly when it holds no `&amp;`. */
  function Unescape(s: string): (r: string)
    ensures |r| + 4 * Count(s, EscapedAmp) == |s|
    ensures r == s <==> !Contains(s, EscapedAmp)
  {
    ReplaceAllLength(s, EscapedAmp, "&");
    ReplaceAllIdentity(s, EscapedAmp, "&");
    ReplaceAll(s, EscapedAmp, "&")
  }

  /** `fmt.Sprintf("%v", v)`: a string prints as itself; the rendering of any
      other kind is the formatter's business and is supplied as `show`. */
  function Sprint(v: Value, show: Value -> string): string {
    if v.Str? then v.s else show(v)
  }

  /** `reflect.TypeOf(v).Kind() == reflect.String`: true of Go strings and
      of every other type whose underlying type is `string`. */
  predicate KindIsString(v: Value) {
    v.Str? || v.StringKinded?
  }

  /** A value the converter can render without panicking. A nil value has
      no reflected type, so `reflect.TypeOf(nil).Kind()` panics; a
      string-kinded value that is not a Go `string` passes the kind test and
      then fails the assertion `value.(string)`. */
  predicate Printable(v: Value) {
    !v.Null? && !v.StringKinded?
  }

  /** The text of one cell: a string is cleaned of `&amp;` and prints as the
      cleaned text; any other printable value prints as `%v` renders it. */
  function Cell(v: Value, show: Value -> string): (r: string)
    requires Printable(v)
    ensures v.Str? ==> r == Unescape(v.s)
    ensures v.Str? ==> (r == v.s <==> !Contains(v.s, EscapedAmp))
    ensures !v.Str? ==> r == show(v)
  {
    if KindIsString(v) then Sprint(Str(Unescape(v.s)), show) else Sprint(v, show)
  }

  /** A cell holding an escaped ampersand is cleaned of it. */
  lemma UnescapeExample()
    ensures Unescape("Alice &amp; Bob") == "Alice & Bob"
  {
    UnescapeTail();
    ReplaceAllSkip("Alice ", "&amp; Bob", EscapedAmp, "&");
    assert "Alice &amp; Bob" == "Alice " + "&amp; Bob";
    assert "Alice " + "& Bob" == "Alice & Bob";
  }

  lemma UnescapeTail()
    ensures ReplaceAll("&amp; Bob", EscapedAmp, "&") == "& Bob"
  {
    assert ("&amp; Bob")[..5] == EscapedAmp;
    assert ("&amp; Bob")[5..] == " Bob";
    assert ReplaceAll(" Bob", EscapedAmp, "&") == " Bob";
  }

  /** The pass never rescans what it produced, so unescaping twice differs
      from unescaping once. */
  lemma UnescapeNotIdempotent()
    ensures Unescape("&amp;amp;") == "&amp;"
    ensures Unescape(Unescape("&amp;amp;")) == "&"
  {
    assert ("&amp;amp;")[..5] == EscapedAmp;
    assert ("&amp;amp;")[5..] == "amp;";
    assert ("&amp;")[..5] == EscapedAmp;
    assert ("&amp;")[5..] == "";
  }

  // ---------------------------------------------------------------------------
  // Header and records
  // ---------------------------------------------------------------------------

  /** `headers` is the column header for a batch whose first document is
      `first`: its field names except `_id`, in increasing byte order. */
  ghost predicate IsHeaderOf(headers: seq<string>, first: Document) {
    && StrictlySortedBy(headers, Identity)
    && forall k :: k in headers <==> k in first && k != IdKey
  }

  /** `row` renders `doc` column by column under `headers`. */
  ghost predicate IsRowOf(row: Record, headers: seq<string>, doc: Document, show: Value -> string) {
    && |row| == |headers|
    && forall j :: 0 <= j < |headers| ==>
         headers[j] in doc && Printable(doc[headers[j]]) && row[j] == Cell(doc[headers[j]], show)
  }

  /** `records` is what `convertToCSV` writes for `data`: the header record,
      then one record per document, in input order. */
  ghost predicate IsCsvOf(records: seq<Record>, data: seq<Document>, show: Value -> string) {
    && |data| > 0
    && |records| == |data| + 1
    && IsHeaderOf(records[0], data[0])
    && forall i :: 0 <= i < |data| ==> IsRowOf(records[i + 1], records[0], data[i], show)
  }

  /** Every column of the first document is present and printable in every
      document of the batch; otherwise the converter panics on the cell. */
  ghost predicate Renderable(data: seq<Document>) {
    && |data| > 0
    && forall i, k :: 0 <= i < |data| && k in data[0] && k != IdKey ==>
         k in data[i] && Printable(data[i][k])
  }

  /** `extractHeaders`: the field names of the first document, without
      `_id`, sorted. Keys are met in Go's unspecified map order. */
  method ExtractHeaders(data: seq<Document>) returns (headers: seq<string>)
    requires |data| > 0
    ensures StrictlySortedBy(headers, Identity)
    ensures forall k :: k in headers <==> k in data[0] && k != IdKey
  {
    var keys: seq<string> := [];
    var unvisited := data[0].Keys;
    while unvisited != {}
      invariant unvisited <= data[0].Keys
      invariant DistinctBy(keys, Identity)
      invariant forall k :: k in keys <==> k in data[0] && k !in unvisited && k != IdKey
      decreases unvisited
    {
      var k :| k in unvisited;
      unvisited := unvisited - {k};
      if k != IdKey {
        keys := keys + [k];
      }
    }
    headers := SortBy(keys, Identity);
    PermutationKeepsDistinct(keys, headers, Identity);
    SortedDistinctIsStrict(headers, Identity);
    forall k
      ensures k in headers <==> k in keys
    {
      assert k in headers <==> k in multiset(headers);
      assert k in keys <==> k in multiset(keys);
    }
  }

  /** `convertToCSV`: the header record, then one record per document with
      one cell per header column. `os.Create` truncates, so the file holds
      these records whatever it held before; other files are untouched. */
  method ConvertToCSV(data: seq<Document>, outputFile: string, files: Files, show: Value -> string)
    returns (files': Files)
    requires Renderable(data)
    ensures files'.Keys == files.Keys + {outputFile}
    ensures IsCsvOf(files'[outputFile], data, show)
    ensures forall f :: f in files && f != outputFile ==> files'[f] == files[f]
  {
    var headers := ExtractHeaders(data);
    var records: seq<Record> := [headers];
    var i := 0;
    while i < |data|
      invariant 0 <= i <= |data|
      invariant |records| == i + 1 && records[0] == headers
      invariant forall r :: 0 <= r < i ==> IsRowOf(records[r + 1], headers, data[r], show)
    {
      var row: Record := seq(|headers|, _ => "");
      var j := 0;
      while j < |headers|
        invariant 0 <= j <= |headers| && |row| == |headers|
        invariant forall c :: 0 <= c < j ==>
                    headers[c] in data[i] && Printable(data[i][headers[c]])
                    && row[c] == Cell(data[i][headers[c]], show)
      {
        assert headers[j] in headers;
        var value := data[i][headers[j]];
        if KindIsString(value) {
          assert value.Str?;
          value := Str(Unescape(value.s));
        }
        row := row[j := Sprint(value, show)];
        j := j + 1;
      }
      records := records + [row];
      i := i + 1;
    }
    files' := files[outputFile := records];
  }

  /** The header depends on nothing but the first document's field names
      other than `_id`: fields that appear only in later documents never
      become columns. */
  lemma HeaderFromFirstDocument(h1: seq<string>, h2: seq<string>, first1: Document, first2: Document)
    requires IsHeaderOf(h1, first1) && IsHeaderOf(h2, first2)
    ensures h1 == h2 <==> first1.Keys - {IdKey} == first2.Keys - {IdKey}
  {
    if first1.Keys - {IdKey} == first2.Keys - {IdKey} {
      forall k
        ensures k in h1 <==> k in h2
      {
        assert k in first1.Keys - {IdKey} <==> k in first2.Keys - {IdKey};
      }
      StrictlySortedUnique(h1, h2);
    }
    if h1 == h2 {
      forall k
        ensures k in first1.Keys - {IdKey} <==> k in first2.Keys - {IdKey}
      {
        assert k in h1 <==> k in h2;
      }
    }
  }

  /** Although keys are visited in an unspecified order, a batch has exactly
      one CSV rendering. */
  lemma CsvDeterministic(r1: seq<Record>, r2: seq<Record>, data: seq<Document>, show: Value -> string)
    requires IsCsvOf(r1, data, show) && IsCsvOf(r2, data, show)
    ensures r1 == r2
  {
    HeaderFromFirstDocument(r1[0], r2[0], data[0], data[0]);
    forall i | 0 <= i < |r1|
      ensures r1[i] == r2[i]
    {
      if i > 0 {
        assert IsRowOf(r1[i], r1[0], data[i - 1], show);
        assert IsRowOf(r2[i], r2[0], data[i - 1], show);
      }
    }
  }

  // ---------------------------------------------------------------------------
  // Artifact name
  // ---------------------------------------------------------------------------

  /** The local file a dataset is written to: the database name, a dash,
      the collection name and `.csv`, each readable back by position. */
  function ArtifactName(ds: Dataset): (r: string)
    ensures |r| == |ds.database| + |ds.collection| + 5
    ensures r[..|ds.database|] == ds.database && r[|ds.database|] == '-'
    ensures r[|ds.database| + 1..|r| - 4] == ds.collection
    ensures r[|r| - 4..] == ".csv"
  {
    ds.database + "-" + ds.collection + ".csv"
  }

  /** The name does not identify the dataset: the dash is ambiguous. */
  lemma ArtifactNameCollision()
    ensures Dataset("a-b", "c") != Dataset("a", "b-c")
    ensures ArtifactName(Dataset("a-b", "c")) == ArtifactName(Dataset("a", "b-c"))
  {
  }

  /** When database names hold no dash, the file name identifies the dataset. */
  lemma ArtifactNameInjective(d1: Dataset, d2: Dataset)
    requires '-' !in d1.database && '-' !in d2.database
    ensures ArtifactName(d1) == ArtifactName(d2) <==> d1 == d2
  {
    var n1, n2 := ArtifactName(d1), ArtifactName(d2);
    var k1, k2 := |d1.database|, |d2.database|;
    if n1 == n2 {
      assert n1[k1] == '-' && n2[k2] == '-';
      assert k1 == k2;
      assert d1.database == n1[..k1] == n2[..k2] == d2.database;
      assert |d1.collection| == |d2.collection|;
      assert d1.collection == n1[k1 + 1..|n1| - 4] == n2[k2 + 1..|n2| - 4] == d2.collection;
    }
  }
}
