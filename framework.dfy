/** The host-framework objects the auth code reads and writes: the per-session
    state dictionary, the browser cookie manager, a mutable Python list, and the
    password hasher. */
module Framework {
  import opened Text

  datatype Option<T> = None | Some(value: T)

  /** A value stored in the session state or in one of its dictionaries. */
  datatype Value =
    | Bool(b: bool)
    | Str(s: string)
    | List(items: seq<string>)
    | Dict(entries: map<string, Value>)

  /** Python's `d.get(k)`: `None` when the key is absent. */
  function Get<V>(d: map<string, V>, k: string): (r: Option<V>)
    ensures r.Some? <==> k in d
    ensures r.Some? ==> r.value == d[k]
  {
    if k in d then Some(d[k]) else None
  }

  /** Python truthiness of a value that may be `None`. */
  predicate Truthy(v: Option<Value>)
  {
    match v
    case None => false
    case Some(Bool(b)) => b
    case Some(Str(s)) => s != ""
    case Some(List(xs)) => xs != []
    case Some(Dict(d)) => d != map[]
  }

  /** Python's `x in v`: a substring test on a string, element membership on a
      list, key membership on a dictionary. A boolean holds nothing. */
  predicate Contains(v: Value, x: string)
  {
    match v
    case Bool(_) => false
    case Str(s) => IsSubstring(x, s)
    case List(xs) => x in xs
    case Dict(d) => x in d
  }

  /** The session state (`st.session_state`), one dictionary shared by every
      page and handler of a session. */
  class SessionState {
    var entries: map<string, Value>

    constructor (entries: map<string, Value>)
      ensures this.entries == entries
    {
      this.entries := entries;
    }
  }

  /** The cookie manager: cookie name to cookie value. An absent key is what
      the source reads back as `None`. */
  class CookieManager {
    var jar: map<string, string>

    constructor (jar: map<string, string>)
      ensures this.jar == jar
    {
      this.jar := jar;
    }
  }

  /** A Python list of strings, updated in place and possibly shared. */
  class StrList {
    var items: seq<string>

    constructor (items: seq<string>)
      ensures this.items == items
    {
      this.items := items;
    }
  }

  /** The password hasher (argon2 in the source), seen only through `hash` and
      `verify`; `verify(h, p)` is false where the source's verifier raises a
      mismatch. */
  datatype PasswordHasher = PasswordHasher(hash: string -> string, verify: (string, string) -> bool)

  /** The one thing the model assumes of the hasher: a hash verifies the
      password it was made from. */
  ghost predicate Sound(ph: PasswordHasher)
  {
    forall p :: ph.verify(ph.hash(p), p)
  }
}
