/**
 * Guard clauses. Every validator in the handlers is a sequence of
 * `if <condition>: return jsonify(message=...), 400` statements; the first
 * condition that holds decides the answer, and a condition that Python cannot
 * evaluate on the value it is given raises an exception, which Flask answers
 * with a 500.
 */
module Checks {
  import opened Wrappers
  import opened Json

  /** An uncaught Python exception raised while checking a body. */
  datatype PyError = TypeError | KeyError

  /** The outcome of one guard clause, or of a whole validator. */
  datatype Verdict = Pass | Reject(message: string) | Fault(error: PyError)

  /** `if v > bound: return 400 message` on a value of any JSON type. */
  function RejectIfGreater(v: JValue, bound: int, message: string): (r: Verdict)
    ensures r.Pass? <==> IntAtMost(v, bound)
    ensures r.Fault? <==> !IsInt(v)
    ensures r.Fault? ==> r.error == TypeError
    ensures r.Reject? ==> r.message == message
  {
    if !IsInt(v) then Fault(TypeError)
    else if IntValue(v) > bound then Reject(message)
    else Pass
  }

  /** `if len(v) > bound: return 400 message` on a value of any JSON type. */
  function RejectIfLonger(v: JValue, bound: int, message: string): (r: Verdict)
    ensures r.Pass? <==> StrAtMost(v, bound)
    ensures r.Fault? <==> !v.JStr?
    ensures r.Fault? ==> r.error == TypeError
    ensures r.Reject? ==> r.message == message
  {
    match v
    case JStr(s) => if |s| > bound then Reject(message) else Pass
    case _ => Fault(TypeError)
  }

  /** `if field in data and <rule fails on data[field]>`: the rule applies only to a present field. */
  function IfPresent(d: Body, field: string, rule: JValue -> Verdict): Verdict
  {
    if field in d then rule(d[field]) else Pass
  }

  /** Every one of `fields` is a key of the body. */
  predicate HasAll(d: Body, fields: seq<string>)
  {
    forall k :: 0 <= k < |fields| ==> fields[k] in d
  }

  /**
   * The first of `fields` missing from the body, searching in order (the
   * `for field in required_fields: if field not in data: return ...` loop).
   */
  function FirstAbsent(fields: seq<string>, d: Body): (r: Option<string>)
    ensures r.None? <==> HasAll(d, fields)
    ensures forall k :: 0 <= k < |fields| && fields[k] !in d && (forall j :: 0 <= j < k ==> fields[j] in d)
                        ==> r == Some(fields[k])
  {
    if fields == [] then None
    else if fields[0] !in d then Some(fields[0])
    else
      var r := FirstAbsent(fields[1..], d);
      assert forall k :: 1 <= k < |fields| ==> fields[k] == fields[1..][k - 1];
      r
  }

  /**
   * The answer of guard clauses run in the order of `vs`: the first one that
   * does not pass, or Pass when all pass.
   */
  function FirstFailure(vs: seq<Verdict>): (r: Verdict)
    ensures r.Pass? <==> forall k :: 0 <= k < |vs| ==> vs[k].Pass?
    ensures forall k :: 0 <= k < |vs| && !vs[k].Pass? && (forall j :: 0 <= j < k ==> vs[j].Pass?) ==> r == vs[k]
  {
    if vs == [] then Pass
    else if !vs[0].Pass? then vs[0]
    else
      var tail := vs[1..];
      var r := FirstFailure(tail);
      assert forall k :: 0 <= k < |tail| ==> tail[k] == vs[k + 1];
      r
  }
}
