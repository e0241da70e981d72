/** The handful of JavaScript value rules the client relies on, for `string | null` values. */
module JsValues {
  import opened Wrappers

  /** JavaScript truthiness of a `string | null` (or `string | undefined`):
      null, undefined and the empty string are falsy, every other string is truthy. */
  predicate Truthy(v: Option<string>)
  {
    v.Some? && v.value != ""
  }

  /** `v || null`: a truthy value is kept, every falsy one collapses to null. */
  function OrNull(v: Option<string>): (r: Option<string>)
    ensures r.Some? <==> Truthy(v)
    ensures r.Some? ==> r == v
    ensures r == None || r.value != ""
  {
    if Truthy(v) then v else None
  }

  /** The text a template literal `${v}` produces for a `string | null`: null prints as "null". */
  function TemplateText(v: Option<string>): (r: string)
    ensures v.Some? ==> r == v.value
    ensures v.None? ==> r == "null"
  {
    match v
    case Some(s) => s
    case None => "null"
  }
}
