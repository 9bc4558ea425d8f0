/** JSON values as data; numbers are exact, and the order of properties is not kept. */
module Json {
  import opened Wrappers

  datatype Json =
    | Null
    | Bool(flag: bool)
    | Number(value: real)
    | Text(text: string)
    | List(items: seq<Json>)
    | Record(fields: map<string, Json>)

  /** `value[name]` of a record; None for a property that is not there. */
  function Get(value: Json, name: string): Option<Json> {
    if value.Record? && name in value.fields then Some(value.fields[name]) else None
  }

  /** The string a property holds, if it holds one. */
  function TextAt(value: Json, name: string): Option<string> {
    match Get(value, name)
    case Some(Text(text)) => Some(text)
    case _ => None
  }
}
