/** The deserialisation errors the book-definition visitors report (serde's `de::Error` constructors). */
module De {
  datatype DeError =
    | MissingField(field: string)
    | DuplicateField(field: string)
    | UnknownVariant(variant: string, variants: seq<string>)
    | UnknownField(field: string, fields: seq<string>)
    | InvalidValue(unexpected: string, expected: string)
    | InvalidType(expected: string)
}
