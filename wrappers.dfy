/** The nullable values of the extension (`string | null`, an optional record field,
    a prompt the user may dismiss) are modelled as Option. */
module Wrappers {

  datatype Option<+T> = None | Some(value: T)

  /** JavaScript truthiness of an optional string: absent and "" are both falsy. */
  predicate Truthy(s: Option<string>) {
    s.Some? && s.value != ""
  }

  /** `s || fallback` for an optional string. */
  function OrElse(s: Option<string>, fallback: string): (r: string)
    ensures r == fallback || Some(r) == s
    ensures r != "" <==> Truthy(s) || fallback != ""
  {
    if Truthy(s) then s.value else fallback
  }
}
