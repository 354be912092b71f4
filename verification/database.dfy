/** Delta selection and document normalization (database/database.go,
    `GetData`). */
module Database {
  import opened Wrappers
  import opened Strings
  import opened Documents

  // ---------------------------------------------------------------------------
  // ObjectIDs
  // ---------------------------------------------------------------------------

  predicate IsHexDigit(c: char) {
    '0' <= c <= '9' || 'a' <= c <= 'f' || 'A' <= c <= 'F'
  }

  /** The form `ObjectID.Hex()` produces: 24 lower-case hex digits. For
      strings of this form, string order is the byte order of the ObjectIDs
      they encode, because '0'-'9' precede 'a'-'f'. */
  predicate IsCanonicalHex(s: string) {
    |s| == 24 && forall i :: 0 <= i < |s| ==> ('0' <= s[i] <= '9' || 'a' <= s[i] <= 'f')
  }

  /** `primitive.ObjectIDFromHex(s)` followed by `.Hex()`: 24 hex digits of
      either case decode to an ObjectID, whose canonical form is the
      lower-cased input; anything else is an error. */
  function ObjectIdFromHex(s: string): (r: Option<string>)
    ensures r.Some? <==> |s| == 24 && forall i :: 0 <= i < |s| ==> IsHexDigit(s[i])
    ensures r.Some? ==> IsCanonicalHex(r.value) && Lower(r.value) == Lower(s)
  {
    if |s| == 24 && forall i :: 0 <= i < |s| ==> IsHexDigit(s[i]) then
      LowerFacts(s);
      Some(Lower(s))
    else
      None
  }

  /** Printing an ObjectID and parsing it back gives the same ObjectID. */
  lemma HexRoundTrip(h: string)
    requires IsCanonicalHex(h)
    ensures ObjectIdFromHex(h) == Some(h)
  {
    LowerFacts(h);
  }

  // ---------------------------------------------------------------------------
  // Normalization
  // ---------------------------------------------------------------------------

  /** The `_id` of a stored document as hex, when it is an ObjectID; the sort
      key of the query. */
  function IdHex(d: Document): string {
    if IdKey in d && d[IdKey].ObjectId? then d[IdKey].hex else ""
  }

  /** The `_id` of a returned document, which normalization made a string. */
  function ReturnedId(d: Document): string {
    if IdKey in d && d[IdKey].Str? then d[IdKey].s else ""
  }

  /** No two field names of `d` lower-case to the same name. */
  ghost predicate LowerDistinct(d: Document) {
    forall a, b {:trigger a in d, b in d} :: a in d && b in d && Lower(a) == Lower(b) ==> a == b
  }

  /** The lower-cased field names of `d`. */
  function LowerImage(keys: set<string>): set<string> {
    set k | k in keys :: Lower(k)
  }

  /** Step one of normalization (database/database.go:120-122): an ObjectID
      `_id` becomes its hex string; every other field, and an `_id` of any
      other kind, is left as it was. */
  function SetIdHex(d: Document): (r: Document)
    ensures r.Keys == d.Keys
    ensures forall k :: k in d && k != IdKey ==> r[k] == d[k]
    ensures IdKey in d && d[IdKey].ObjectId? ==> r[IdKey] == Str(d[IdKey].hex)
    ensures IdKey in d && !d[IdKey].ObjectId? ==> r[IdKey] == d[IdKey]
  {
    if IdKey in d && d[IdKey].ObjectId? then d[IdKey := Str(d[IdKey].hex)] else d
  }

  /** Step two (database/database.go:124-132), stated declaratively: every
      field moves to its lower-cased name and keeps its value; no field is
      lost, because no two names lower-case alike. */
  function LowerKeys(d: Document): (r: Document)
    requires LowerDistinct(d)
    ensures forall k :: k in r ==> IsLower(k)
    ensures forall k {:trigger Lower(k) in r} :: k in d ==> Lower(k) in r && r[Lower(k)] == d[k]
    ensures |r| == |d|
  {
    var r := map k' | k' in LowerImage(d.Keys) :: var k :| k in d && Lower(k) == k'; d[k];
    forall k | k in r
      ensures IsLower(k)
    {
      var k0 :| k0 in d && Lower(k0) == k;
      LowerFacts(k0);
    }
    forall k | k in d
      ensures Lower(k) in r && r[Lower(k)] == d[k]
    {
      assert Lower(k) in LowerImage(d.Keys);
    }
    InjectiveImageSize(d.Keys);
    assert r.Keys == LowerImage(d.Keys);
    assert |r| == |r.Keys| && |d| == |d.Keys|;
    r
  }

  /** Lower-casing is injective on `keys`, so the image is as large. */
  lemma {:induction false} InjectiveImageSize(keys: set<string>)
    requires forall a, b :: a in keys && b in keys && Lower(a) == Lower(b) ==> a == b
    ensures |LowerImage(keys)| == |keys|
    decreases |keys|
  {
    if keys != {} {
      var k :| k in keys;
      var rest := keys - {k};
      InjectiveImageSize(rest);
      assert LowerImage(keys) == LowerImage(rest) + {Lower(k)};
      assert Lower(k) !in LowerImage(rest);
    }
  }

  /** Step two as the source runs it: ranging over the map while adding
      each lower-cased name and deleting the original one. Go's range may
      also visit an added name; for a name that is already lower-case the
      body rewrites the same value and deletes nothing, so only the
      original names are visited here. The result does not depend on the
      visiting order. */
  method LowerKeysInPlace(d: Document) returns (result: Document)
    requires LowerDistinct(d)
    ensures result == LowerKeys(d)
  {
    result := d;
    var pending := d.Keys;
    while pending != {}
      invariant pending <= d.Keys
      invariant Visited(d, pending, result)
      decreases pending
    {
      var key :| key in pending;
      ghost var before := result;
      var value := result[key];
      var newKey := Lower(key);
      result := result[newKey := value];
      if newKey != key {
        result := result - {key};
      }
      VisitStep(d, pending, key, before, result);
      pending := pending - {key};
    }
    VisitedAll(d, result);
  }

  /** Once every name is visited the map is the declarative result. */
  lemma VisitedAll(d: Document, result: Document)
    requires LowerDistinct(d) && Visited(d, {}, result)
    ensures result == LowerKeys(d)
  {
    var expected := LowerKeys(d);
    assert d.Keys - {} == d.Keys;
    LowerKeysDomain(d);
    assert result.Keys == expected.Keys;
    forall k' | k' in result
      ensures expected[k'] == result[k']
    {
      var k :| k in d && Lower(k) == k';
      assert result[Lower(k)] == d[k];
      assert Lower(k) in expected;
    }
  }

  /** The names `LowerKeys` produces are exactly the lower-cased names. */
  lemma LowerKeysDomain(d: Document)
    requires LowerDistinct(d)
    ensures LowerKeys(d).Keys == LowerImage(d.Keys)
  {
    var r := LowerKeys(d);
    forall k' | k' in LowerImage(d.Keys)
      ensures k' in r
    {
      var k :| k in d && Lower(k) == k';
      assert Lower(k) in r;
    }
    InjectiveImageSize(d.Keys);
    SubsetSameSize(LowerImage(d.Keys), r.Keys);
  }

  lemma SubsetSameSize<T>(a: set<T>, b: set<T>)
    requires a <= b && |a| == |b|
    ensures a == b
  {
    assert |b - a| == |b| - |a|;
  }

  /** Part way through the loop: the names still `pending` hold their
      original values, every visited name has moved to its lower-cased
      form, and nothing else is present. */
  ghost predicate Visited(d: Document, pending: set<string>, result: Document) {
    && pending <= d.Keys
    && (forall k :: k in pending ==> k in result && result[k] == d[k])
    && (forall k :: k in d && k !in pending ==> Lower(k) in result && result[Lower(k)] == d[k])
    && result.Keys == pending + LowerImage(d.Keys - pending)
  }

  /** One turn of the range loop keeps `Visited`. Visiting `key` touches no
      other pending name and no name already produced: names differ after
      lower-casing, and a produced name is already lower-case. */
  lemma VisitStep(d: Document, pending: set<string>, key: string, before: Document, after: Document)
    requires LowerDistinct(d) && pending <= d.Keys && key in pending
    requires Visited(d, pending, before)
    requires after == if Lower(key) != key then before[Lower(key) := before[key]] - {key}
                      else before[Lower(key) := before[key]]
    ensures Visited(d, pending - {key}, after)
  {
    var nk := Lower(key);
    var rest := pending - {key};
    LowerFacts(key);
    forall k | k in rest
      ensures k in after && after[k] == d[k]
    {
      if nk == k {
        LowerFacts(k);
      }
    }
    forall k | k in d && k !in rest
      ensures Lower(k) in after && after[Lower(k)] == d[k]
    {
      LowerFacts(k);
      if k != key {
        assert Lower(k) != nk;
      }
    }
    VisitStepKeys(d, pending, key, before, after);
  }

  /** The name set after one turn of the range loop. */
  lemma VisitStepKeys(d: Document, pending: set<string>, key: string, before: Document, after: Document)
    requires LowerDistinct(d) && pending <= d.Keys && key in pending
    requires before.Keys == pending + LowerImage(d.Keys - pending)
    requires after.Keys == if Lower(key) != key then before.Keys + {Lower(key)} - {key}
                           else before.Keys + {Lower(key)}
    ensures after.Keys == (pending - {key}) + LowerImage(d.Keys - (pending - {key}))
  {
    var nk := Lower(key);
    var rest := pending - {key};
    LowerFacts(key);
    ImageStep(d.Keys, pending, key);
    forall k | k in rest + LowerImage(d.Keys - rest)
      ensures k in after
    {
      if k in LowerImage(d.Keys - rest) && k != nk {
        var k0 :| k0 in d.Keys - pending && Lower(k0) == k;
        LowerFacts(k0);
      }
    }
  }

  /** Visiting `key` adds its lower-cased form to the names produced. */
  lemma ImageStep(keys: set<string>, pending: set<string>, key: string)
    requires key in pending && pending <= keys
    ensures LowerImage(keys - (pending - {key})) == LowerImage(keys - pending) + {Lower(key)}
  {
    assert keys - (pending - {key}) == (keys - pending) + {key};
  }

  /** Both normalization steps (database/database.go:115-134). */
  function Normalize(d: Document): (r: Document)
    requires LowerDistinct(d)
    ensures forall k :: k in r ==> IsLower(k)
    ensures forall k {:trigger Lower(k) in r} :: k in d && k != IdKey ==> Lower(k) in r && r[Lower(k)] == d[k]
    ensures IdKey in d ==> IdKey in r && r[IdKey] == SetIdHex(d)[IdKey]
    ensures r.Keys == LowerImage(d.Keys)
    ensures |r| == |d|
  {
    var s := SetIdHex(d);
    assert LowerDistinct(s);
    LowerFacts(IdKey);
    LowerKeysDomain(s);
    assert |s| == |s.Keys| == |d.Keys| == |d|;
    LowerKeys(s)
  }

  // ---------------------------------------------------------------------------
  // Selection
  // ---------------------------------------------------------------------------

  /** A stored collection as `GetData` relies on it: every document has an
      ObjectID `_id`, no two share one, and no two field names of one
      document lower-case alike. */
  ghost predicate WellFormedCollection(coll: seq<Document>) {
    && (forall d :: d in coll ==> HasObjectId(d) && LowerDistinct(d))
    && DistinctBy(coll, IdHex)
  }

  ghost predicate HasObjectId(d: Document) {
    IdKey in d && d[IdKey].ObjectId? && IsCanonicalHex(d[IdKey].hex)
  }

  /** What the server holds, as far as a query can observe it: the
      collections of each dataset, and whether the query reaches it. */
  datatype Store = Store(collections: map<Dataset, seq<Document>>, reachable: bool)

  ghost predicate WellFormedStore(store: Store) {
    forall ds :: ds in store.collections ==> WellFormedCollection(store.collections[ds])
  }

  /** Querying a collection that does not exist finds no documents. */
  function CollectionOf(store: Store, ds: Dataset): seq<Document> {
    if ds in store.collections then store.collections[ds] else []
  }

  /** The failures `GetData` reports. */
  datatype FetchError = InvalidHex(input: string) | QueryFailed

  /** The cursor filter: no cursor keeps everything, a cursor keeps the
      documents whose `_id` is greater. */
  predicate After(d: Document, cursor: Option<string>) {
    cursor.None? || Less(cursor.value, IdHex(d))
  }

  /** The server-side filter `{_id: {$gt: cursor}}`, in stored order. */
  function Select(coll: seq<Document>, cursor: Option<string>): (r: seq<Document>)
    ensures forall d :: d in r <==> d in coll && After(d, cursor)
    ensures DistinctBy(coll, IdHex) ==> DistinctBy(r, IdHex)
    ensures cursor.None? ==> r == coll
    decreases |coll|
  {
    if |coll| == 0 then []
    else
      var rest := Select(coll[1..], cursor);
      assert coll == [coll[0]] + coll[1..];
      SelectDistinct(coll, rest, cursor);
      (if After(coll[0], cursor) then [coll[0]] else []) + rest
  }

  lemma SelectDistinct(coll: seq<Document>, rest: seq<Document>, cursor: Option<string>)
    requires |coll| > 0
    requires forall d :: d in rest ==> d in coll[1..]
    requires DistinctBy(coll, IdHex) ==> DistinctBy(rest, IdHex)
    ensures DistinctBy(coll, IdHex) ==>
              DistinctBy((if After(coll[0], cursor) then [coll[0]] else []) + rest, IdHex)
  {
    if DistinctBy(coll, IdHex) {
      var r := (if After(coll[0], cursor) then [coll[0]] else []) + rest;
      forall i, j | 0 <= i < j < |r|
        ensures IdHex(r[i]) != IdHex(r[j])
      {
        if After(coll[0], cursor) && i == 0 {
          assert r[j] in coll[1..];
          var m :| 0 <= m < |coll[1..]| && coll[1..][m] == r[j];
          assert coll[m + 1] == r[j];
        }
      }
    }
  }

  /** The query: the filtered documents, ascending by `_id`. */
  function Query(coll: seq<Document>, cursor: Option<string>): (r: seq<Document>)
    requires WellFormedCollection(coll)
    ensures StrictlySortedBy(r, IdHex)
    ensures forall d :: d in r <==> d in coll && After(d, cursor)
    ensures |r| == |Select(coll, cursor)|
  {
    var selected := Select(coll, cursor);
    var r := SortBy(selected, IdHex);
    PermutationKeepsDistinct(selected, r, IdHex);
    SortedDistinctIsStrict(r, IdHex);
    assert |r| == |multiset(r)| == |multiset(selected)| == |selected|;
    forall d
      ensures d in r <==> d in selected
    {
      assert d in r <==> d in multiset(r);
      assert d in selected <==> d in multiset(selected);
    }
    r
  }

  /** The batch the cursor loop builds: each document read is normalized
      and appended (database/database.go:134). The result normalizes each
      document of the query result, keeping the order. */
  function NormalizeAll(docs: seq<Document>): (r: seq<Document>)
    requires forall d :: d in docs ==> LowerDistinct(d)
    ensures |r| == |docs|
    ensures forall i :: 0 <= i < |docs| ==> r[i] == Normalize(docs[i])
    decreases |docs|
  {
    if |docs| == 0 then []
    else
      var last := docs[|docs| - 1];
      assert last in docs;
      NormalizeAll(docs[..|docs| - 1]) + [Normalize(last)]
  }

  /** The cursor a `lastID` stands for; `None` also for an empty `lastID`. */
  function Cursor(lastID: string): Option<string> {
    if lastID == "" then None else ObjectIdFromHex(lastID)
  }

  /** A normalized stored document carries its ObjectID as the hex string. */
  lemma NormalizedId(d: Document)
    requires HasObjectId(d) && LowerDistinct(d)
    ensures ReturnedId(Normalize(d)) == IdHex(d)
  {
  }

  /** `GetData(dataset, lastID)`. An empty `lastID` applies no filter; a
      non-empty one must be ObjectID hex, or the call fails with an empty
      result before any query. Otherwise the documents come back normalized,
      strictly ascending by `_id` and above the cursor (which documents they
      are is `GetDataComplete` and `GetDataSound`). A failed query also yields an empty result. */
  function GetData(dataset: Dataset, lastID: string, store: Store): (r: Returns<seq<Document>, FetchError>)
    requires WellFormedStore(store)
    ensures lastID != "" && ObjectIdFromHex(lastID).None? ==> r == Returns([], Some(InvalidHex(lastID)))
    ensures r.err.None? <==> store.reachable && (lastID == "" || ObjectIdFromHex(lastID).Some?)
    ensures r.err.Some? ==> r.value == []
    ensures r.err.None? ==> StrictlySortedBy(r.value, ReturnedId)
    ensures r.err.None? && lastID != "" ==>
              forall e :: e in r.value ==> Less(Cursor(lastID).value, ReturnedId(e))
  {
    if lastID != "" && ObjectIdFromHex(lastID).None? then
      Returns([], Some(InvalidHex(lastID)))
    else if !store.reachable then
      Returns([], Some(QueryFailed))
    else
      var coll := CollectionOf(store, dataset);
      var found := Query(coll, Cursor(lastID));
      var docs := NormalizeAll(found);
      NormalizedIds(coll, Cursor(lastID), found, docs);
      AboveCursor(coll, Cursor(lastID), found, docs);
      Returns(docs, None)
  }

  /** What a successful `GetData` computes: the query result, normalized. */
  lemma GetDataValue(dataset: Dataset, lastID: string, store: Store)
    requires WellFormedStore(store)
    requires GetData(dataset, lastID, store).err.None?
    ensures WellFormedCollection(CollectionOf(store, dataset))
    ensures GetData(dataset, lastID, store).value
              == NormalizeAll(Query(CollectionOf(store, dataset), Cursor(lastID)))
  {
  }

  /** A successful `GetData` returns every stored document whose `_id` lies
      above the cursor, normalized. */
  lemma GetDataComplete(dataset: Dataset, lastID: string, store: Store)
    requires WellFormedStore(store)
    requires GetData(dataset, lastID, store).err.None?
    ensures forall d :: d in CollectionOf(store, dataset) && After(d, Cursor(lastID)) ==>
              Normalize(d) in GetData(dataset, lastID, store).value
  {
    GetDataValue(dataset, lastID, store);
    var found := Query(CollectionOf(store, dataset), Cursor(lastID));
    NormalizeAllMembers(found);
  }

  /** Everything a successful `GetData` returns is a normalized stored
      document whose `_id` lies above the cursor. */
  lemma GetDataSound(dataset: Dataset, lastID: string, store: Store)
    requires WellFormedStore(store)
    requires GetData(dataset, lastID, store).err.None?
    ensures forall e :: e in GetData(dataset, lastID, store).value ==>
              exists d :: d in CollectionOf(store, dataset) && After(d, Cursor(lastID)) && e == Normalize(d)
  {
    GetDataValue(dataset, lastID, store);
    var found := Query(CollectionOf(store, dataset), Cursor(lastID));
    NormalizeAllOrigins(found);
  }

  lemma NormalizeAllMembers(docs: seq<Document>)
    requires forall d :: d in docs ==> LowerDistinct(d)
    ensures forall d :: d in docs ==> Normalize(d) in NormalizeAll(docs)
  {
    var r := NormalizeAll(docs);
    forall d | d in docs
      ensures Normalize(d) in r
    {
      var i :| 0 <= i < |docs| && docs[i] == d;
      assert r[i] == Normalize(d);
    }
  }

  lemma NormalizeAllOrigins(docs: seq<Document>)
    requires forall d :: d in docs ==> LowerDistinct(d)
    ensures forall e :: e in NormalizeAll(docs) ==> exists d :: d in docs && e == Normalize(d)
  {
    var r := NormalizeAll(docs);
    forall e | e in r
      ensures exists d :: d in docs && e == Normalize(d)
    {
      var i :| 0 <= i < |r| && r[i] == e;
      assert docs[i] in docs;
    }
  }

  lemma AboveCursor(coll: seq<Document>, cursor: Option<string>, found: seq<Document>, docs: seq<Document>)
    requires WellFormedCollection(coll)
    requires found == Query(coll, cursor) && |docs| == |found|
    requires forall i :: 0 <= i < |docs| ==> ReturnedId(docs[i]) == IdHex(found[i])
    ensures cursor.Some? ==> forall e :: e in docs ==> Less(cursor.value, ReturnedId(e))
  {
    forall e | cursor.Some? && e in docs
      ensures Less(cursor.value, ReturnedId(e))
    {
      var i :| 0 <= i < |docs| && docs[i] == e;
      assert found[i] in found;
    }
  }

  lemma NormalizedIds(coll: seq<Document>, cursor: Option<string>, found: seq<Document>, docs: seq<Document>)
    requires WellFormedCollection(coll)
    requires found == Query(coll, cursor) && |docs| == |found|
    requires forall i :: 0 <= i < |found| ==> LowerDistinct(found[i]) && docs[i] == Normalize(found[i])
    ensures forall i :: 0 <= i < |docs| ==> ReturnedId(docs[i]) == IdHex(found[i])
    ensures StrictlySortedBy(docs, ReturnedId)
  {
    forall i | 0 <= i < |docs|
      ensures ReturnedId(docs[i]) == IdHex(found[i])
    {
      assert found[i] in found;
      NormalizedId(found[i]);
    }
  }

  // ---------------------------------------------------------------------------
  // Properties of the delta
  // ---------------------------------------------------------------------------

  /** With an empty cursor nothing is filtered: every stored document comes
      back, once. */
  lemma EmptyCursorReturnsAll(dataset: Dataset, store: Store)
    requires WellFormedStore(store) && store.reachable
    ensures var r := GetData(dataset, "", store);
            && r.err.None?
            && |r.value| == |CollectionOf(store, dataset)|
            && forall d :: d in CollectionOf(store, dataset) ==> Normalize(d) in r.value
  {
    var coll := CollectionOf(store, dataset);
    assert |Query(coll, None)| == |Select(coll, None)| == |coll|;
    GetDataComplete(dataset, "", store);
  }

  /** Calling again with the largest `_id` just returned as the cursor, on an
      unchanged collection, fetches nothing. */
  lemma RepeatedCallFetchesNothing(dataset: Dataset, lastID: string, store: Store)
    requires WellFormedStore(store)
    requires GetData(dataset, lastID, store).err.None?
    requires |GetData(dataset, lastID, store).value| > 0
    ensures var docs := GetData(dataset, lastID, store).value;
            GetData(dataset, ReturnedId(docs[|docs| - 1]), store) == Returns([], None)
  {
    var coll := CollectionOf(store, dataset);
    var found := Query(coll, Cursor(lastID));
    LastReturnedId(dataset, lastID, store);
    var h := IdHex(found[|found| - 1]);
    NothingAfterLast(coll, Cursor(lastID));
    EmptyQueryResult(dataset, h, store);
  }

  /** The last returned `_id` is the hex of the last document the query
      found. */
  lemma LastReturnedId(dataset: Dataset, lastID: string, store: Store)
    requires WellFormedStore(store)
    requires GetData(dataset, lastID, store).err.None?
    requires |GetData(dataset, lastID, store).value| > 0
    ensures var found := Query(CollectionOf(store, dataset), Cursor(lastID));
            var docs := GetData(dataset, lastID, store).value;
            && |found| == |docs|
            && ReturnedId(docs[|docs| - 1]) == IdHex(found[|found| - 1])
            && IsCanonicalHex(IdHex(found[|found| - 1]))
  {
    GetDataValue(dataset, lastID, store);
    var found := Query(CollectionOf(store, dataset), Cursor(lastID));
    LastFound(CollectionOf(store, dataset), Cursor(lastID));
  }

  /** The last document a query finds is stored, so it has an ObjectID
      `_id` and normalizes to a document carrying that `_id` as hex. */
  lemma LastFound(coll: seq<Document>, cursor: Option<string>)
    requires WellFormedCollection(coll)
    requires |Query(coll, cursor)| > 0
    ensures var found := Query(coll, cursor);
            var last := found[|found| - 1];
            && HasObjectId(last) && LowerDistinct(last)
            && ReturnedId(Normalize(last)) == IdHex(last)
  {
    var found := Query(coll, cursor);
    assert found[|found| - 1] in found;
    NormalizedId(found[|found| - 1]);
  }

  /** A canonical cursor above every stored `_id` yields an empty success. */
  lemma EmptyQueryResult(dataset: Dataset, h: string, store: Store)
    requires WellFormedStore(store) && store.reachable && IsCanonicalHex(h)
    requires Query(CollectionOf(store, dataset), Some(h)) == []
    ensures GetData(dataset, h, store) == Returns([], None)
  {
    HexRoundTrip(h);
  }

  /** No stored document lies above the largest `_id` a query returned. */
  lemma NothingAfterLast(coll: seq<Document>, cursor: Option<string>)
    requires WellFormedCollection(coll)
    requires |Query(coll, cursor)| > 0
    ensures var found := Query(coll, cursor);
            Query(coll, Some(IdHex(found[|found| - 1]))) == []
  {
    var found := Query(coll, cursor);
    NoneAbove(coll, cursor, found);
    var next := Query(coll, Some(IdHex(found[|found| - 1])));
    if |next| > 0 {
      FirstIsMember(next);
      assert false;
    }
  }

  lemma FirstIsMember<T>(s: seq<T>)
    requires |s| > 0
    ensures s[0] in s
  {
  }

  /** The sorted selection ends at its largest `_id`: every selected
      document is at or below it, and every other document is at or below
      the cursor. */
  lemma NoneAbove(coll: seq<Document>, cursor: Option<string>, found: seq<Document>)
    requires StrictlySortedBy(found, IdHex) && |found| > 0
    requires forall d :: d in found <==> d in coll && After(d, cursor)
    ensures forall d :: d in coll ==> !After(d, Some(IdHex(found[|found| - 1])))
  {
    var n := |found| - 1;
    var h := IdHex(found[n]);
    assert found[n] in found;
    forall d | d in coll
      ensures !Less(h, IdHex(d))
    {
      if cursor.Some? && Less(h, IdHex(d)) {
        LessTransitive(cursor.value, h, IdHex(d));
      }
      if d in found {
        var i :| 0 <= i < |found| && found[i] == d;
        if i < n {
          LessAsymmetric(IdHex(found[i]), h);
        } else {
          LessIrreflexive(h);
        }
      }
    }
  }
}
