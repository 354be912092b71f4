# DaXSome-Syncer core, modelled in Dafny

DaXSome-Syncer mirrors MongoDB collections (the "datasets" listed in a
catalog) into CSV files and uploads each file to a Firebase storage bucket.
This project models the pure logic of one sync unit and proves properties
about it:

- **Fetching a delta** (`Database`, database/database.go `GetData`). An
  empty `lastID` fetches the whole collection. A non-empty one must be
  ObjectID hex; the query then keeps the documents whose `_id` is greater.
  The result comes back ascending by `_id`. Each returned document is
  normalized: an ObjectID `_id` becomes its lower-case hex string, and every
  field name is lower-cased.
- **Rendering CSV** (`Tabular`, main.go `extractHeaders`, `convertToCSV`).
  The header is the first document's field names without `_id`, in byte
  order. Each document gives one record with one cell per header column.
  String cells have `&amp;` replaced by `&`, and every cell is printed with
  `%v`. The local file is named `<database>-<collection>.csv`.
- **Publishing** (`Storage`, storage/storage.go `UploadFile`). The object
  path is `DaXSome/datasets/<base name of the file>`, as `filepath.Join`
  cleans it. The URL is the bucket's download prefix, then the path with
  every `/` written as `%2F`, then `?alt=media`. Any failing step yields an
  empty URL and an error.
- **Go library semantics** the code relies on (`Strings`): string order,
  sorting, `strings.ReplaceAll` and ASCII `strings.ToLower`.

Modules:

- `wrappers.dfy`: `Option`, and `Returns`, a Go-style value-plus-error pair.
- `documents.dfy`: datasets, document values and documents.
- `strings.dfy`: the string library.
- `database.dfy`, `tabular.dfy`, `storage.dfy`: the three parts above.

Nondeterminism in the source is kept explicit:

- Go's map iteration order is a `:|` choice inside the methods that loop over
  maps (`ExtractHeaders`, `LowerKeysInPlace`). Lemmas show that the outcome
  does not depend on it.
- The database server is a `Store` value: the collections, plus whether the
  query reaches the server.
- The outcome of each upload I/O step is an `UploadIO` parameter.

Notes on what the code does:

- `os.Create` truncates the local file. The file holds the header and the
  current batch only; nothing is appended to an earlier artifact.
- A document without one of the header's fields yields a nil value.
  `reflect.TypeOf(nil).Kind()` then panics; no empty cell is written. A
  value whose kind is string but whose type is not `string` (the driver's
  `primitive.JavaScript` and `primitive.Symbol`) passes the kind test and
  then panics at the assertion `value.(string)`. The model states both as
  the precondition `Renderable` of `ConvertToCSV`.
- The only cursor is the `_id` hex string. There is no timestamp or
  freshness-marker cursor, and main.go never writes an advanced cursor back
  into the snapshot.

## Model

| member | source | states |
|---|---|---|
| Strings.SortBy | main.go:68 | the result is in non-decreasing order and is a permutation (same multiset) of the input |
| Strings.StrictlySortedUnique | main.go:68 | two strictly increasing sequences with the same members are equal, so the sorted header is determined by its set of names |
| Strings.LessTotal | main.go:68 | Go's string `<` is total: of two different strings one is below the other |
| Strings.LessTransitive | database/database.go:90 | the string order used to sort and filter `_id`s is transitive |
| Strings.ReplaceAll | main.go:44 | Go's single left-to-right pass replacing each leftmost non-overlapping occurrence (also storage/storage.go:71); equal-length texts keep the length, and with no occurrence the input comes back unchanged |
| Strings.Lower | database/database.go:126 | ASCII `strings.ToLower`: same length, the result has no upper-case letter, upper-case letters move up by 32 and every other character is kept |
| Strings.ReplaceAllLength | main.go:44 | one `ReplaceAll` pass changes the length by the number of replaced occurrences times the length difference of the two texts |
| Strings.ReplaceAllIdentity | main.go:44 | when the texts differ in length, `ReplaceAll` returns its input unchanged exactly when the pattern does not occur |
| Strings.ReplaceAllSingleChar | storage/storage.go:71 | for a one-character pattern, `ReplaceAll` agrees with an independent character-by-character replacement |
| Strings.ReplaceCharRemoves | storage/storage.go:71 | after replacing a character by text that lacks it, the character no longer occurs |
| Strings.LowerFacts | database/database.go:126 | lower-casing yields a lower-case name, is idempotent, and leaves lower-case names unchanged |
| Tabular.Unescape | main.go:43-45 | each `&amp;` replaced shrinks the cell by four characters, and the cell is unchanged exactly when it holds no `&amp;` |
| Tabular.Cell | main.go:41-47 | a printable string cell is its text cleaned of `&amp;`, equal to the original exactly when it held none; any other printable value prints as `%v` renders it |
| Tabular.UnescapeExample | main.go:44 | `Alice &amp; Bob` becomes `Alice & Bob` |
| Tabular.UnescapeNotIdempotent | main.go:44 | the pass does not rescan its output: `&amp;amp;` becomes `&amp;`, which a second pass would turn into `&` |
| Tabular.ExtractHeaders | main.go:58-71 | the header is strictly increasing, excludes `_id`, and holds exactly the first document's other field names, whatever order the map is visited in |
| Tabular.HeaderFromFirstDocument | main.go:58-71 | two headers are equal if and only if their first documents have the same field names apart from `_id` |
| Tabular.ConvertToCSV | main.go:22-56 | the file holds the header record and then, in input order, one record per document with the rendered cell of each header column; no other file changes |
| Tabular.CsvDeterministic | main.go:22-71 | a batch has exactly one CSV rendering, despite the unspecified map order |
| Tabular.ArtifactName | main.go:113 | the file name is the database name, a dash, the collection name and `.csv`, each part readable back at its position |
| Tabular.ArtifactNameCollision | main.go:113 | the datasets `a-b`/`c` and `a`/`b-c` are different but get the same file name |
| Tabular.ArtifactNameInjective | main.go:113 | when database names hold no dash, two datasets share a file name if and only if they are the same dataset |
| Database.ObjectIdFromHex | database/database.go:96-100 | a cursor is accepted exactly when it is 24 hex digits of either case; its canonical form is lower-case hex of the same digits |
| Database.HexRoundTrip | database/database.go:97 | parsing the hex form that `Hex()` prints gives back the same ObjectID |
| Database.SetIdHex | database/database.go:120-122 | an ObjectID `_id` becomes its hex string; every other field, and a non-ObjectID `_id`, is kept; no field is added or removed |
| Database.LowerKeys | database/database.go:124-132 | every name is lower-case, each field moves to its lower-cased name with its value, and the field count is preserved |
| Database.LowerKeysInPlace | database/database.go:125-132 | renaming keys one by one in any visiting order, while inserting and deleting in the map being visited, ends in the declarative `LowerKeys` result |
| Database.Normalize | database/database.go:115-134 | the normalized document has exactly the lower-cased names of the original, as many fields as the original, every non-`_id` field under its lower-cased name, and the hex string of an ObjectID `_id` |
| Database.NormalizeAll | database/database.go:115-136 | the batch built by appending each normalized document as it is read holds, at every position, the normalization of the fetched document there, and is as long as the query result |
| Database.Select | database/database.go:92-104 | the filter keeps exactly the documents whose `_id` is above the cursor, keeps everything without a cursor, and keeps `_id`s distinct |
| Database.Query | database/database.go:88-110 | the query result is strictly increasing by `_id` and holds exactly the stored documents above the cursor |
| Database.GetData | database/database.go:85-141 | bad hex fails before any query with an empty result; success exactly when the hex is good and the server is reachable; any error gives an empty result; results are strictly ascending by `_id` and above the cursor |
| Database.GetDataComplete | database/database.go:110-136 | every stored document above the cursor is returned, normalized |
| Database.GetDataSound | database/database.go:110-136 | every returned document is the normalization of a stored document above the cursor |
| Database.EmptyCursorReturnsAll | database/database.go:92-96 | an empty `lastID` returns every stored document once |
| Database.RepeatedCallFetchesNothing | database/database.go:90-103 | calling again with the last returned `_id` as the cursor, on an unchanged collection, succeeds with no documents |
| Database.NothingAfterLast | database/database.go:103 | no stored document lies above the largest `_id` a query returned |
| Storage.Base | storage/storage.go:54 | the base name is never empty; it is `/` exactly for a non-empty path of slashes, and otherwise holds no slash |
| Storage.BaseIgnoresDirectory | storage/storage.go:54 | the directory part of a path does not affect its base name |
| Storage.BaseIdempotent | storage/storage.go:54 | taking the base name twice changes nothing |
| Storage.ObjectPath | storage/storage.go:54 | an ordinary base name is appended to `DaXSome/datasets`; a base name of `.` or `/` cleans to the folder, and `..` to its parent `DaXSome` |
| Storage.ObjectKeepsBase | storage/storage.go:54 | for an ordinary base name, the object path's own base name is the file's base name |
| Storage.DotPathIsFolder | storage/storage.go:54 | the object path computed for the empty path and for `.` is the folder `DaXSome/datasets` itself |
| Storage.SlashPathIsFolder | storage/storage.go:54 | the object path computed for `/` is the folder itself |
| Storage.DotDotPathIsRoot | storage/storage.go:54 | the object path computed for `..` is `DaXSome`, the folder's parent |
| Storage.EncodePath | storage/storage.go:71 | the encoded path holds no slash, and a slash-free path is unchanged |
| Storage.EncodeJoin | storage/storage.go:71 | encoding distributes over joining with `/`: each joining slash becomes `%2F` |
| Storage.PublicUrl | storage/storage.go:71-73 | the URL starts with the bucket's download prefix, ends with `?alt=media`, and has no slash in between |
| Storage.OrdinaryUrl | storage/storage.go:54-73 | for an ordinary base name the URL is the prefix, `DaXSome%2Fdatasets%2F`, the base name and `?alt=media` |
| Storage.UrlIgnoresDirectory | storage/storage.go:54-73 | files with the same base name in different directories get the same URL, so a later upload overwrites the object |
| Storage.UrlInjective | storage/storage.go:54-73 | for ordinary names, files in any two directories get the same URL if and only if their names agree |
| Storage.UploadFile | storage/storage.go:44-76 | success exactly when opening, copying and the ACL change all succeed; the first failing step names the error; the URL is empty exactly on error and is the public URL on success |

## Left out

- The orchestration in main.go (lines 73-133) is left out. This covers loading and saving `snapshot.json`, the catalog query `GetDatasets`, the goroutine per dataset with its `WaitGroup`, and logging. It is I/O and concurrency.
- main.go:103 passes the whole snapshot map where `GetData` expects a `lastID` string, so the source as written does not type-check. The model takes `lastID` as a plain parameter.
- The cursor is never advanced: main.go never writes a new cursor into the snapshot. No cursor-commit step is modelled because the code has none.
- `fmt.Sprintf("%v", v)` for non-string values is the `show` parameter of `Tabular.Sprint`. Go's formatting rules for numbers, dates and nested values are outside the model.
- CSV quoting and byte encoding by `csv.Writer` are left out. A file is modelled as the sequence of records handed to `Write`.
- Errors from `os.Create`, from `csv.Writer.Write` and from the deferred `Flush` and `Close` are left out. main.go:115 ignores the error `convertToCSV` returns anyway.
- Tabular.ConvertToCSV: the panics on a missing field, on a nil value, and on a string-kinded value that is not a Go `string` (`primitive.JavaScript`, `primitive.Symbol`) are a precondition (`Renderable`), not a modelled crash.
- The MongoDB driver plumbing is left out: connection, cursor iteration, decode errors and `Find` options. A failing `Find` is the `reachable` flag of `Store`.
- Database.GetDataComplete: the cursor loop at database/database.go:115 never checks `docs.Err()`. If the connection is lost during a later batch of a large result, `docs.Next` returns false, and line 140 returns the documents read so far with a nil error. The model's query cannot fail after `Find` succeeds, so it promises every matching document; `Database.EmptyCursorReturnsAll` inherits this.
- Database.Query: ordering assumes every `_id` is an ObjectID (`WellFormedCollection`). MongoDB's cross-type ordering of mixed `_id` kinds is not modelled.
- Database.LowerKeysInPlace: the loop visits only the document's original field names. Go's `range` may also visit a lower-cased name the loop itself inserted; for such a name the body rewrites the same value and deletes nothing, so that visit is left out.
- Database.LowerKeys: requires that no two field names of a document lower-case alike. When they do, the Go loop keeps whichever value its random visiting order writes last, and the model does not cover that case.
- Strings.Lower covers ASCII letters only. Unicode case mapping in `strings.ToLower` is outside the model.
- Strings.SortBy: one insertion sort stands for both `sort.Strings` and the server-side sort. Only its result (sorted permutation) is modelled, not the algorithm.
- The Firebase client setup in storage/storage.go:21-42 is left out. So are the bucket contents, the content type, and the errors of the deferred `f.Close` and `writer.Close`.
- Storage.UploadFile: the ACL call runs before the deferred `writer.Close` commits the object. Whether that call can see the object is up to the storage service, and the model takes its outcome as the `acl` parameter.
- Storage.UploadFile: `UploadIO` knows nothing of the file system. In the source, `os.Open("")` fails, and a file whose base name is `.`, `/` or `..` is a directory: `os.Open` succeeds on it, but the read inside `io.Copy` fails, so storage/storage.go:63-64 returns an error. No URL ever comes back for these names. The model lets the caller choose those outcomes rather than deriving them.
- `filepath.Base` and `filepath.Join` are modelled for `/` as separator. Windows volume names and separators are left out.
