/**
  JSON documents as the Python code sees them after `json.loads` or
  `.json()`, and the Python operations the modelled code applies to them:
  `in`, subscripting, `.get`, `.items()`, iteration, truthiness and `==`.
  An operation Python would reject raises; here it returns `Raise` with the
  exception's class.
 */
module PyJson {
  import opened Text

  /** A JSON value. An object keeps its members in order; keys are distinct, as in a Python dict. */
  datatype Json =
    | Null
    | Bool(b: bool)
    | Int(i: int)
    | Str(s: string)
    | Arr(items: seq<Json>)
    | Obj(fields: seq<(string, Json)>)

  /** The Python exception classes the modelled code can raise. */
  datatype PyError =
    | KeyError
    | TypeError
    | AttributeError
    | AssertionError
    | IndexError
    | ValueError
    | InvalidVersion

  /** The result of a Python expression: a value, or the exception it raises. */
  datatype Outcome<+T> = Ok(value: T) | Raise(error: PyError) {
    predicate IsFailure() {
      Raise?
    }

    function PropagateFailure<U>(): Outcome<U>
      requires Raise?
    {
      Raise(error)
    }

    function Extract(): T
      requires Ok?
    {
      value
    }
  }

  predicate HasKey(fields: seq<(string, Json)>, k: string) {
    exists i | 0 <= i < |fields| :: fields[i].0 == k
  }

  /** `d[k]` on a dict known to hold `k`: the value bound to `k`. */
  function Lookup(fields: seq<(string, Json)>, k: string): (v: Json)
    requires HasKey(fields, k)
    ensures exists i | 0 <= i < |fields| :: fields[i] == (k, v)
  {
    if fields[0].0 == k then fields[0].1
    else
      assert HasKey(fields[1..], k) by {
        var i :| 0 <= i < |fields| && fields[i].0 == k;
        assert fields[1..][i - 1].0 == k;
      }
      var v := Lookup(fields[1..], k);
      assert exists i | 0 <= i < |fields[1..]| :: fields[1..][i] == (k, v);
      var i :| 0 <= i < |fields[1..]| && fields[1..][i] == (k, v);
      assert fields[i + 1] == (k, v);
      v
  }

  /** The integer Python sees in a bool or an int (`True == 1`, `False == 0`). */
  function Numeric(x: Json): int
    requires x.Bool? || x.Int?
  {
    if x.Int? then x.i else if x.b then 1 else 0
  }

  /** Python `==` between two JSON-derived values. */
  predicate PyEq(a: Json, b: Json)
    decreases a
  {
    if a.Null? || b.Null? then a.Null? && b.Null?
    else if a.Str? || b.Str? then a == b
    else if (a.Bool? || a.Int?) && (b.Bool? || b.Int?) then Numeric(a) == Numeric(b)
    else if a.Arr? && b.Arr? then
      |a.items| == |b.items| &&
      forall i | 0 <= i < |a.items| :: PyEq(a.items[i], b.items[i])
    else if a.Obj? && b.Obj? then
      |a.fields| == |b.fields| &&
      forall i | 0 <= i < |a.fields| ::
        HasKey(b.fields, a.fields[i].0) && PyEq(a.fields[i].1, Lookup(b.fields, a.fields[i].0))
    else false
  }

  /** Against a string, Python `==` is plain equality. */
  lemma PyEqStr(x: Json, s: string)
    ensures PyEq(x, Str(s)) <==> x == Str(s)
    ensures PyEq(Str(s), x) <==> x == Str(s)
  {
  }

  /** `needle in container` */
  function In(needle: Json, container: Json): Outcome<bool> {
    match container
    case Obj(fields) =>
      if needle.Str? then Ok(HasKey(fields, needle.s))
      else if needle.Arr? || needle.Obj? then Raise(TypeError)   // unhashable
      else Ok(false)                                             // JSON keys are strings
    case Arr(items) => Ok(exists i | 0 <= i < |items| :: PyEq(needle, items[i]))
    case Str(s) => if needle.Str? then Ok(IsSubstring(needle.s, s)) else Raise(TypeError)
    case _ => Raise(TypeError)                                   // not iterable
  }

  /** `container[key]` with a string key */
  function Subscript(container: Json, key: string): Outcome<Json> {
    if !container.Obj? then Raise(TypeError)
    else if HasKey(container.fields, key) then Ok(Lookup(container.fields, key))
    else Raise(KeyError)
  }

  /** `container.get(key, default)`; Python's None is JSON null. */
  function Get(container: Json, key: string, default: Json): Outcome<Json> {
    if !container.Obj? then Raise(AttributeError)
    else if HasKey(container.fields, key) then Ok(Lookup(container.fields, key))
    else Ok(default)
  }

  /** `container.items()` */
  function Items(container: Json): Outcome<seq<(string, Json)>> {
    if container.Obj? then Ok(container.fields) else Raise(AttributeError)
  }

  /** What `for x in container` visits: list items, dict keys, or the characters of a string. */
  function Iter(container: Json): Outcome<seq<Json>> {
    match container
    case Arr(items) => Ok(items)
    case Obj(fields) => Ok(seq(|fields|, i requires 0 <= i < |fields| => Str(fields[i].0)))
    case Str(s) => Ok(seq(|s|, i requires 0 <= i < |s| => Str([s[i]])))
    case _ => Raise(TypeError)
  }

  /** `bool(x)` */
  predicate Truthy(x: Json) {
    match x
    case Null => false
    case Bool(b) => b
    case Int(i) => i != 0
    case Str(s) => s != []
    case Arr(items) => items != []
    case Obj(fields) => fields != []
  }
}
