/** The slice of JavaScript values the attribute filter looks at: the values
    held in records and in access lists, property lookup that may find
    nothing (`undefined`), and `Array.prototype.indexOf`. */
module JsValues {

  /** A property value or an access-level token. Loose-equality coercion
      between strings and numbers is not modelled: values compare structurally. */
  datatype Value = Str(s: string) | Num(n: int)

  /** A property lookup that may yield `undefined` (`None`). */
  datatype Option<+T> = None | Some(value: T)

  /** `obj[key]` on a plain object: the value if the object owns `key`, else `undefined`. */
  function Get(obj: map<string, Value>, key: string): (r: Option<Value>)
    ensures r.Some? <==> key in obj
    ensures r.Some? ==> r.value == obj[key]
  {
    if key in obj then Some(obj[key]) else None
  }

  /** `s.indexOf(x)`: the first position at which `x` occurs in `s`, or -1.
      No element of an access list is `undefined`, so looking one up gives -1. */
  function IndexOf(s: seq<Value>, x: Option<Value>): (i: int)
    ensures -1 <= i < |s|
    ensures i == -1 <==> x.None? || x.value !in s
    ensures 0 <= i ==> x.Some? && s[i] == x.value && x.value !in s[..i]
  {
    match x
    case None => -1
    case Some(v) =>
      if |s| == 0 then -1
      else if s[0] == v then 0
      else
        var j := IndexOf(s[1..], x);
        if j == -1 then -1
        else
          assert s[..j + 1] == [s[0]] + s[1..][..j];
          j + 1
  }
}
