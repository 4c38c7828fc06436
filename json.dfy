/**
 * The decoded JSON request body as the handlers see it, and the Python
 * operations the handlers apply to its loosely typed values.
 */
module Json {

  /** A decoded JSON scalar. */
  datatype JValue = JStr(s: string) | JInt(i: int) | JBool(b: bool) | JNull

  /** A decoded request body: a JSON object from field names to values. */
  type Body = map<string, JValue>

  /** `data.get(key, default)`. */
  function GetOr(d: Body, key: string, default: JValue): JValue
  {
    if key in d then d[key] else default
  }

  /** `isinstance(v, int)`: in Python a bool is an int too. */
  predicate IsInt(v: JValue)
  {
    v.JInt? || v.JBool?
  }

  /** The integer Python compares for an int or a bool (True is 1, False is 0). */
  function IntValue(v: JValue): int
    requires IsInt(v)
  {
    if v.JInt? then v.i else if v.b then 1 else 0
  }

  /** `s.isdigit()` over the decimal digits '0'..'9': non-empty, every character a digit. */
  predicate IsDigits(s: string)
  {
    |s| > 0 && forall k :: 0 <= k < |s| ==> '0' <= s[k] <= '9'
  }

  /** An int (or bool) no greater than `bound`. */
  predicate IntAtMost(v: JValue, bound: int)
  {
    IsInt(v) && IntValue(v) <= bound
  }

  /** A string no longer than `bound`. */
  predicate StrAtMost(v: JValue, bound: int)
  {
    v.JStr? && |v.s| <= bound
  }
}
