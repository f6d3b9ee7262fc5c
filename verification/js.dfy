/** Values as the dashboard receives them from the backend and from JavaScript itself. */
module Js {

  datatype Option<+T> = None | Some(value: T)

  /** The outcome of one backend request whose payload should be an array:
      the array, a payload of some other shape, or a request that threw. */
  datatype Response<+T> = Array(items: seq<T>) | NotAnArray | RequestFailed

  /** A field value of a record fetched from the backend. */
  datatype JsValue = Str(s: string) | Num(n: int) | Bool(b: bool) | Null | Undefined

  /** JavaScript truthiness of an optional string (`undefined`/`null` and `""` are falsy). */
  predicate Truthy(s: Option<string>)
  {
    s.Some? && s.value != ""
  }

  /** JavaScript truthiness of an optional numeric identifier (`0` is falsy). */
  predicate TruthyId(id: Option<int>)
  {
    id.Some? && id.value != 0
  }
}
