// Failure-carrying results, bytes and JSON values shared by the other modules.

module Wrappers {

  datatype Option<+T> = None | Some(value: T)

  datatype Result<+T, +E> = Ok(value: T) | Err(error: E)

  newtype byte = x: int | 0 <= x < 256

  type Bytes = seq<byte>

  /** A decoded JSON document. */
  datatype Json =
    | JNull
    | JBool(flag: bool)
    | JInt(number: int)
    | JReal(fraction: real)
    | JStr(text: string)
    | JArr(items: seq<Json>)
    | JObj(fields: map<string, Json>)

  function Get(fields: map<string, Json>, name: string): Json {
    if name in fields then fields[name] else JNull
  }

  function Min(a: nat, b: nat): nat {
    if a < b then a else b
  }
}
