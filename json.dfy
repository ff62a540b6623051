/** JSON values as they come back from a `jsonb` column or an HTTP response. */
module JsonValues {

  datatype Json =
    | JNull
    | JBool(b: bool)
    | JInt(i: int)
    | JFloat(f: real)
    | JStr(s: string)
    | JArr(items: seq<Json>)
    | JObj(fields: map<string, Json>)

  /** `Hash#dig(key)` / `Hash#[](key)` with one key: the value, or nil when absent. */
  function Dig(h: map<string, Json>, key: string): (v: Json)
    ensures key in h ==> v == h[key]
    ensures key !in h ==> v == JNull
  {
    if key in h then h[key] else JNull
  }
}
