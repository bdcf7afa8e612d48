/** JSON values as they are read from a text, with the fields of each object in some order. */
module JsonValues {

  // A number is whole when it is written without fraction or exponent.
  datatype Json =
    | Null
    | Boolean(b: bool)
    | Whole(n: int)
    | Fraction(x: real)
    | Str(s: string)
    | List(items: seq<Json>)
    | Object(fields: seq<Field>)

  datatype Field = Field(key: string, value: Json)
}
