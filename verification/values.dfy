/** Cell values of a grid row. JavaScript values are modelled as a JSON-like datatype
    compared structurally: numbers are integers, objects are maps. */
module Values {

  datatype Value =
    | Str(s: string)
    | Num(n: int)
    | Bool(b: bool)
    | Null
    | Arr(items: seq<Value>)
    | Obj(fields: map<string, Value>)

  /** The empty string that the span code writes into cells it blanks. */
  const Blank: Value := Str("")
}
