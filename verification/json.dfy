/** The JSON tree that the org.json parser hands to the extraction code, and the
    accessors of `JSONObject` / `JSONArray` it calls. Every accessor that can throw
    `JSONException` returns a `Result`, whose `Err` case stands for that exception.
 */
module Json {

  /** `Option<T>`, used for the result of the abstract text parser (`None` is
      malformed text) and for a `String` reference that may be `null`. */
  datatype Option<+T> = None | Some(value: T)

  /** The one checked exception of org.json. */
  datatype JsonException = JsonException

  /** Either a value or the `JSONException` an accessor threw. Usable with `:-`. */
  datatype Result<+T> = Ok(value: T) | Err(error: JsonException) {

    predicate IsFailure() {
      Err?
    }

    function PropagateFailure<U>(): Result<U>
      requires Err?
    {
      Err(error)
    }

    function Extract(): T
      requires Ok?
    {
      value
    }
  }

  /** A parsed JSON value. Numbers, booleans and `null` are kept as `JLit`, carrying
      the text `getString` renders them to; `JObj` is the key/value table of a
      `JSONObject`, `JArr` the element list of a `JSONArray`.
   */
  datatype Json =
    | JStr(s: string)
    | JLit(text: string)
    | JArr(items: seq<Json>)
    | JObj(fields: JsonObject)

  type JsonObject = map<string, Json>

  /** `new JSONObject(text)` once the text has been parsed: malformed text (`None`)
      and a top-level value that is not an object both throw. */
  function ParseObject(tree: Option<Json>): (r: Result<JsonObject>)
    ensures r.Ok? <==> tree.Some? && tree.value.JObj?
    ensures r.Ok? ==> tree.value == JObj(r.value)
  {
    match tree
    case Some(JObj(fields)) => Ok(fields)
    case _ => Err(JsonException)
  }

  /** `JSONObject.has(key)`: the key is present, whatever its value (a JSON `null`
      included). */
  predicate Has(obj: JsonObject, key: string) {
    key in obj
  }

  /** `has` answers from the key alone: a key mapped to a JSON `null` literal is
      present, and adding a key leaves the other keys' answers as they were. */
  lemma HasIgnoresValue(obj: JsonObject, key: string, other: string)
    ensures Has(obj[key := JLit("null")], key)
    ensures other != key ==> (Has(obj[key := JLit("null")], other) <==> Has(obj, other))
  {
  }

  /** The string `getString` yields for a value: a string as is, a literal as its
      text; a nested array or object throws in this model. */
  function AsString(v: Json): (r: Result<string>)
    ensures r.Ok? <==> v.JStr? || v.JLit?
    ensures v.JStr? ==> r == Ok(v.s)
    ensures v.JLit? ==> r == Ok(v.text)
  {
    match v
    case JStr(s) => Ok(s)
    case JLit(text) => Ok(text)
    case _ => Err(JsonException)
  }

  /** `JSONObject.getString(key)`: throws when the key is missing. */
  function GetString(obj: JsonObject, key: string): (r: Result<string>)
    ensures r.Ok? <==> key in obj && (obj[key].JStr? || obj[key].JLit?)
    ensures key in obj && obj[key].JStr? ==> r == Ok(obj[key].s)
  {
    if key in obj then AsString(obj[key]) else Err(JsonException)
  }

  /** `JSONObject.getJSONObject(key)`: throws when the key is missing or its value
      is not an object. */
  function GetObject(obj: JsonObject, key: string): (r: Result<JsonObject>)
    ensures r.Ok? <==> key in obj && obj[key].JObj?
    ensures r.Ok? ==> obj[key] == JObj(r.value)
  {
    if key in obj && obj[key].JObj? then Ok(obj[key].fields) else Err(JsonException)
  }

  /** `JSONObject.getJSONArray(key)`: throws when the key is missing or its value
      is not an array. */
  function GetArray(obj: JsonObject, key: string): (r: Result<seq<Json>>)
    ensures r.Ok? <==> key in obj && obj[key].JArr?
    ensures r.Ok? ==> obj[key] == JArr(r.value)
  {
    if key in obj && obj[key].JArr? then Ok(obj[key].items) else Err(JsonException)
  }

  /** The cast inside `getJSONObject`: throws when the value is not an object. */
  function AsObject(v: Json): (r: Result<JsonObject>)
    ensures r.Ok? <==> v.JObj?
    ensures r.Ok? ==> v == JObj(r.value)
  {
    match v
    case JObj(fields) => Ok(fields)
    case _ => Err(JsonException)
  }

  /** `JSONArray.getJSONObject(i)`: throws when the index is out of range or the
      element is not an object. */
  function ArrayGetObject(arr: seq<Json>, i: int): (r: Result<JsonObject>)
    ensures r.Ok? <==> 0 <= i < |arr| && arr[i].JObj?
    ensures r.Ok? ==> arr[i] == JObj(r.value)
  {
    if 0 <= i < |arr| then AsObject(arr[i]) else Err(JsonException)
  }
}
