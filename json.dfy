/** The part of vert.x's `JsonObject` that the token codec uses: objects as
    maps from field names to values, `putString`, `getString`, and the
    encoder and parser, which are foreign code and enter the model as a
    parameter. */
module Json {
  import opened Wrappers

  datatype Value =
    | JString(str: string)
    | JNumber(num: int)
    | JBool(flag: bool)
    | JNull
    | JArray(items: seq<Value>)
    | JObject(fields: map<string, Value>)

  /** A JSON object: its fields by name. */
  type Object = map<string, Value>

  /** `encode()` and `new JsonObject(text)`; the parser fails on text that
      is not a JSON object. */
  datatype Codec = Codec(encode: Object -> string, parse: string -> Option<Object>)

  /** The parser reads back what the encoder wrote for `o`. */
  ghost predicate RoundTrips(codec: Codec, o: Object) {
    codec.parse(codec.encode(o)) == Some(o)
  }

  /** `putString(key, value)`: the field `key` set to the string, every
      other field kept. */
  function PutString(o: Object, key: string, value: string): (r: Object)
    ensures r.Keys == o.Keys + {key}
    ensures r[key] == JString(value)
    ensures forall k :: k in o && k != key ==> r[k] == o[k]
  {
    o[key := JString(value)]
  }

  /** What `getString(key)` yields: the string, `null` (no such field or a
      JSON null), or a failed cast of a value of another kind. */
  datatype StringField = Text(text: string) | Absent | NotAString

  function GetString(o: Object, key: string): (r: StringField)
    ensures r.Text? <==> key in o && o[key].JString?
    ensures r.Text? ==> o[key] == JString(r.text)
    ensures r.Absent? <==> key !in o || o[key] == JNull
  {
    if key !in o then Absent
    else match o[key]
      case JString(s) => Text(s)
      case JNull => Absent
      case _ => NotAString
  }

  /** A string just put is the string read back; other fields are not
      disturbed. */
  lemma GetPutString(o: Object, key: string, value: string, other: string)
    requires other != key
    ensures GetString(PutString(o, key, value), key) == Text(value)
    ensures GetString(PutString(o, key, value), other) == GetString(o, other)
  {
  }
}
