/** The PHP value `json_decode($data, true)` yields for an item table. */
module JsonValue {
  import opened PhpArray

  /** A PHP array key. json_decode turns an object key written as a decimal
      integer (such as "12") into an int key; every other key stays a string. */
  datatype Key = IntKey(n: int) | StrKey(s: string)

  /** A decoded value. JSON objects and lists both become PHP arrays (a list
      gets the keys 0, 1, ...); input that is not valid JSON decodes to Null. */
  datatype Json =
    | Null
    | Bool(b: bool)
    | Int(n: int)
    | Float(x: real)
    | Str(s: string)
    | Array(entries: seq<(Key, Json)>)

  /** `$entry[$name] ?? null` on an array: a missing key reads as Null. */
  function Field(entries: seq<(Key, Json)>, name: string): Json
  {
    match Find(entries, StrKey(name))
    case Some(v) => v
    case None => Null
  }

  /** `isset($entry[$name])`: the key is present and its value is not null. */
  predicate IsSet(entries: seq<(Key, Json)>, name: string)
  {
    Field(entries, name) != Null
  }
}
