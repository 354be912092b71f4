/** The records the synchronizer moves around: datasets from the catalog and
    the free-form documents of a collection. */
module Documents {

  /** One catalog entry (database/database.go:20-23): a collection to mirror. */
  datatype Dataset = Dataset(database: string, collection: string)

  /** A value held by a document field, as the driver decodes it into Go's
      `interface{}`. The code tells apart Go strings, other values whose
      reflected kind is string, ObjectIDs and nil; the other kinds are
      carried for the formatter. */
  datatype Value =
    | Str(s: string)
      /** A 12-byte ObjectID, carried as its 24-digit lower-case hex form. */
    | ObjectId(hex: string)
    | Null
      /** A value of a named Go type whose kind is string but which is not
          `string` itself: the driver decodes BSON JavaScript code and
          symbols into `primitive.JavaScript` and `primitive.Symbol`. */
    | StringKinded(typeName: string, text: string)
    | Int(i: int)
    | Bool(b: bool)
    | DateTime(millis: int)
      /** Any other BSON kind (double, nested document, array, ...). */
    | Other(kind: string, payload: string)

  /** A decoded document: field name to value. */
  type Document = map<string, Value>

  /** The identity field of every stored document. */
  const IdKey: string := "_id"
}
