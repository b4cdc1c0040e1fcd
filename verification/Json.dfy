/** JSON values as `serde_json` holds them. */
module Json {
  import opened Prelude

  /** A number keeps an exact integer when it fits a u64 or an i64; anything else is a float. */
  type JsonInt = n: int | I64_MIN <= n <= U64_MAX

  datatype Number = Int(n: JsonInt) | Float(text: string)

  datatype Json =
    | JNull
    | JBool(b: bool)
    | JNumber(num: Number)
    | JString(s: string)
    | JArray(items: seq<Json>)
    | JObject(fields: map<string, Json>)
}
