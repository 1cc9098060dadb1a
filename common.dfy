/** Values shared by every component: optional values, the dynamically typed
    arguments the handlers receive, the exceptions they raise, and the parts
    of an HTTP request they read. */
module Common {

  datatype Option<+T> = None | Some(value: T)

  /** An octet. */
  type byte = b: int | 0 <= b < 0x100

  /** An argument whose type is only known at run time: Python's `None`,
      a `str`, or a value of any other type. */
  datatype Input = Absent | Text(text: string) | NotText

  /** The exceptions the core raises or lets propagate. */
  datatype Exception =
    | UnicodeDecodeError    // bytes.decode('utf-8') on malformed UTF-8
    | NoResultFound         // a query that matched no row
    | InvalidRequestError   // filter_by on a name that is not a column
    | ValueError            // duplicate registration, unknown column in an update,
                            // non-ASCII text given to the Base64 decoder
    | NameError             // a name used without having been imported

  /** What a call does: it returns a value or raises an exception. */
  datatype Outcome<+T> = Returned(value: T) | Raised(exc: Exception)

  /** The parts of an incoming request the authenticators read. */
  datatype Request = Request(headers: map<string, string>, cookies: map<string, string>)

  /** `d.get(k)` on a dictionary. */
  function Get<K, V>(m: map<K, V>, k: K): (r: Option<V>)
    ensures r.Some? <==> k in m
    ensures r.Some? ==> r.value == m[k]
  {
    if k in m then Some(m[k]) else None
  }
}
