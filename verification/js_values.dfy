/** The few JavaScript value notions the widget relies on: absent values,
    truthiness of strings, the `a || b` default, and how React renders a
    possibly absent value as text. */
module JsValues {

  /** A JSON field that may be absent (`undefined`/`null`) or present. */
  datatype Option<+T> = None | Some(value: T)

  /** JavaScript truthiness of an optional string: an absent value and the
      empty string are falsy, every other string is truthy. */
  predicate Truthy(v: Option<string>) {
    v.Some? && v.value != ""
  }

  /** The expression `v || fallback` where `fallback` is a string. */
  function OrElse(v: Option<string>, fallback: string): string {
    if Truthy(v) then v.value else fallback
  }

  /** The text React renders for `{v}`: nothing for an absent value. */
  function Shown(v: Option<string>): string {
    match v
    case Some(t) => t
    case None => ""
  }
}
