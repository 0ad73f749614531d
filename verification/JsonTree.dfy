/** Parsed documents: the JSON values every contract step walks. */
module JsonTree {

  datatype Json =
    | Null
    | Bool(b: bool)
    | Num(n: real)
    | Str(s: string)
    | Arr(items: seq<Json>)
    | Obj(fields: seq<Field>)

  /** One property; an object lists its properties in insertion order. */
  datatype Field = Field(name: string, value: Json)
}
