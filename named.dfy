/** The rules categories and tags share: a single `name` column. */
module Named {
  import opened Json
  import opened Checks

  const MissingMessage := "Missing required field: name"
  const NameMessage := "Name must be less than 50 characters long"

  /** `len(name) > 50`. */
  function NameRule(v: JValue): Verdict
  {
    RejectIfLonger(v, 50, NameMessage)
  }

  /** A stored name: a string of at most 50 characters. */
  predicate ValidName(v: JValue)
  {
    StrAtMost(v, 50)
  }

  /** create_category and create_tag: name is required, then its length is checked. */
  function ValidateCreate(d: Body): (v: Verdict)
    ensures "name" !in d ==> v == Reject(MissingMessage)
    ensures "name" in d ==> v == ValidateUpdate(d)
    ensures v.Pass? <==> "name" in d && ValidName(d["name"])
  {
    if "name" !in d then Reject(MissingMessage)
    else NameRule(d["name"])
  }

  /** update_category and update_tag: the length is checked only when name is present. */
  function ValidateUpdate(d: Body): (v: Verdict)
    ensures v.Pass? <==> ("name" in d ==> ValidName(d["name"]))
    ensures "name" in d && d["name"].JStr? && |d["name"].s| > 50 ==> v == Reject(NameMessage)
  {
    if "name" in d && !NameRule(d["name"]).Pass? then NameRule(d["name"])
    else Pass
  }
}
