/** Header fields as the gateway sees them. */
module Http {
  import opened Prelude
  import opened Text

  /** A field value: text, a list of texts, or a number together with its decimal form. */
  datatype HeaderValue = One(value: string) | Many(values: seq<string>) | Numeric(digits: string)

  type Headers = map<string, HeaderValue>

  /** `String(value)`. */
  function Shown(v: HeaderValue): string {
    match v
    case One(value) => value
    case Many(values) => Join(values, ',')
    case Numeric(digits) => digits
  }

  /** `String(headers[name] ?? "")`. */
  function Field(headers: Headers, name: string): string {
    if name in headers then Shown(headers[name]) else ""
  }

  /** Whether the field is there and truthy: an empty text is not. */
  predicate Carries(headers: Headers, name: string) {
    name in headers && (headers[name].One? ==> headers[name].value != "")
  }

  /** The field when it is a single text, as `typeof value === "string"` selects it. */
  function TextField(headers: Headers, name: string): Option<string> {
    if name in headers && headers[name].One? then Some(headers[name].value) else None
  }

  const ACCEPT := "accept"
  const ACCEPT_ENCODING := "accept-encoding"
  const AUTHORIZATION := "authorization"
  const COOKIE := "cookie"
  const CACHE_CONTROL := "cache-control"
  const VARY := "vary"
  const X_CACHE := "x-cache"

  datatype Request = Request(verb: string, url: string, headers: Headers)

  /** HTTP message syntax: neither the request target nor a field value holds a line feed. */
  predicate WellFormed(req: Request) {
    '\n' !in req.url && forall name :: name in req.headers ==> '\n' !in Shown(req.headers[name])
  }

  datatype Head = Head(status: int, headers: Headers)
}
