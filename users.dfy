/** The /users handlers: create_user, update_user and their validation and merge rules. */
module Users {
  import opened Json
  import opened Checks
  import opened Storage
  import opened Resource

  /**
   * A stored user; the id is the table key. The columns follow the INSERT and
   * UPDATE statements (FakeAPI.py:187, 223). The table's DDL (FakeAPI.py:75-82)
   * names the status column `userStatus` and puts it before `address`, and the
   * positional reads `user[0][4]`, `user[0][5]` and `User(*row)` follow the DDL
   * order; the model keeps the columns by name.
   */
  datatype User = User(username: JValue, email: JValue, phone: JValue, address: JValue, userStatus: JValue)

  const Required: seq<string> := ["username", "email", "phone"]

  const EmailMessage := "Invalid email format"
  const PhoneMessage := "Invalid phone number format. Phone number must be 10 digits."
  const UsernameMessage := "Username must be between 3 and 50 characters long."
  const AddressMessage := "Address must be less than 100 characters long."
  const StatusMessage := "User status must be less than 50"

  // The guard clause of each field, applied to a present value.

  /** `'@' not in email`. */
  function EmailRule(v: JValue): Verdict
  {
    match v
    case JStr(s) => if '@' !in s then Reject(EmailMessage) else Pass
    case _ => Fault(TypeError)
  }

  /** `len(phone) != 10 or not phone.isdigit()`. */
  function PhoneRule(v: JValue): Verdict
  {
    match v
    case JStr(s) => if |s| != 10 || !IsDigits(s) then Reject(PhoneMessage) else Pass
    case _ => Fault(TypeError)
  }

  /** `len(username) < 3 or len(username) > 50`. */
  function UsernameRule(v: JValue): Verdict
  {
    match v
    case JStr(s) => if |s| < 3 || |s| > 50 then Reject(UsernameMessage) else Pass
    case _ => Fault(TypeError)
  }

  function AddressRule(v: JValue): Verdict
  {
    RejectIfLonger(v, 100, AddressMessage)
  }

  function StatusRule(v: JValue): Verdict
  {
    RejectIfGreater(v, 50, StatusMessage)
  }

  /** The field rules in the order both validators run them, each only on a present field. */
  function Rules(d: Body): seq<Verdict>
  {
    [ IfPresent(d, "email", EmailRule), IfPresent(d, "phone", PhoneRule),
      IfPresent(d, "username", UsernameRule), IfPresent(d, "address", AddressRule),
      IfPresent(d, "user_status", StatusRule) ]
  }

  // The values the rules accept.

  predicate ValidEmail(v: JValue) { v.JStr? && '@' in v.s }
  predicate ValidPhone(v: JValue) { v.JStr? && |v.s| == 10 && IsDigits(v.s) }
  predicate ValidUsername(v: JValue) { v.JStr? && 3 <= |v.s| <= 50 }
  predicate ValidAddress(v: JValue) { StrAtMost(v, 100) }
  predicate ValidStatus(v: JValue) { IntAtMost(v, 50) }

  /** Every field present in the body is acceptable. */
  predicate BodyValid(d: Body)
  {
    && ("email" in d ==> ValidEmail(d["email"]))
    && ("phone" in d ==> ValidPhone(d["phone"]))
    && ("username" in d ==> ValidUsername(d["username"]))
    && ("address" in d ==> ValidAddress(d["address"]))
    && ("user_status" in d ==> ValidStatus(d["user_status"]))
  }

  /** A stored user obeys the field rules; an optional column never given is null. */
  predicate RowValid(u: User)
  {
    && ValidUsername(u.username) && ValidEmail(u.email) && ValidPhone(u.phone)
    && (u.address == JNull || ValidAddress(u.address))
    && (u.userStatus == JNull || ValidStatus(u.userStatus))
  }

  predicate TableValid(rows: map<int, User>)
  {
    forall id :: id in rows ==> RowValid(rows[id])
  }

  /** update_user's checks: each rule only for a field the body carries. */
  function ValidateUpdate(d: Body): (v: Verdict)
    ensures v.Pass? <==> BodyValid(d)
  {
    if "email" in d && !EmailRule(d["email"]).Pass? then EmailRule(d["email"])
    else if "phone" in d && !PhoneRule(d["phone"]).Pass? then PhoneRule(d["phone"])
    else if "username" in d && !UsernameRule(d["username"]).Pass? then UsernameRule(d["username"])
    else if "address" in d && !AddressRule(d["address"]).Pass? then AddressRule(d["address"])
    else if "user_status" in d && !StatusRule(d["user_status"]).Pass? then StatusRule(d["user_status"])
    else Pass
  }

  /** The update checks run in the order of Rules and the first that fails decides the answer. */
  lemma ValidateUpdateInOrder(d: Body)
    ensures ValidateUpdate(d) == FirstFailure(Rules(d))
  {
    var r := Rules(d);
    assert r[1..][0] == r[1] && r[2..][0] == r[2] && r[3..][0] == r[3] && r[4..][0] == r[4];
    assert r[1..][1..] == r[2..] && r[2..][1..] == r[3..] && r[3..][1..] == r[4..] && r[4..][1..] == [];
  }

  /**
   * create_user's checks: the first missing required field, then the field
   * rules in the same order as on update.
   */
  function ValidateCreate(d: Body): (v: Verdict)
    ensures forall k :: 0 <= k < |Required| && Required[k] !in d && (forall j :: 0 <= j < k ==> Required[j] in d)
                        ==> v == Reject("Missing required field: " + Required[k])
    ensures HasAll(d, Required) ==> v == ValidateUpdate(d)
    ensures v.Pass? <==> HasAll(d, Required) && BodyValid(d)
  {
    match FirstAbsent(Required, d)
    case Some(field) => Reject("Missing required field: " + field)
    case None =>
      assert Required[0] in d && Required[1] in d && Required[2] in d;
      if !EmailRule(d["email"]).Pass? then EmailRule(d["email"])
      else if !PhoneRule(d["phone"]).Pass? then PhoneRule(d["phone"])
      else if !UsernameRule(d["username"]).Pass? then UsernameRule(d["username"])
      else if "address" in d && !AddressRule(d["address"]).Pass? then AddressRule(d["address"])
      else if "user_status" in d && !StatusRule(d["user_status"]).Pass? then StatusRule(d["user_status"])
      else Pass
  }

  /** The INSERT's values: the required fields, and null for an absent address or user_status. */
  function NewRow(d: Body): (u: User)
    requires HasAll(d, Required)
    ensures BodyValid(d) ==> RowValid(u)
    ensures "address" !in d ==> u.address == JNull
    ensures "user_status" !in d ==> u.userStatus == JNull
  {
    assert Required[0] in d && Required[1] in d && Required[2] in d;
    User(d["username"], d["email"], d["phone"], GetOr(d, "address", JNull), GetOr(d, "user_status", JNull))
  }

  /** The UPDATE's values: a column takes the body's value when present, else keeps the stored one. */
  function Merge(u: User, d: Body): (r: User)
    ensures d == map[] ==> r == u
    ensures RowValid(u) && BodyValid(d) ==> RowValid(r)
  {
    User(GetOr(d, "username", u.username), GetOr(d, "email", u.email), GetOr(d, "phone", u.phone),
         GetOr(d, "address", u.address), GetOr(d, "user_status", u.userStatus))
  }

  /** Applying the same body a second time changes nothing more. */
  lemma MergeIdempotent(u: User, d: Body)
    ensures Merge(Merge(u, d), d) == Merge(u, d)
  {
  }

  /** A body carrying every column overwrites the whole row: the stored row no longer matters. */
  lemma MergeFullBody(u: User, d: Body)
    requires HasAll(d, Required) && "address" in d && "user_status" in d
    ensures Merge(u, d) == NewRow(d)
  {
    assert Required[0] in d && Required[1] in d && Required[2] in d;
  }

  /** POST /users. */
  method Create(t: Table<User>, d: Body) returns (resp: Response<User>)
    requires t.Valid()
    modifies t
    ensures t.Valid()
    ensures !ValidateCreate(d).Pass? ==> resp == Refusal(ValidateCreate(d)) && t.rows == old(t.rows)
    ensures ValidateCreate(d).Pass? ==>
              && resp == Created("User created successfully")
              && exists id :: FreshRowId(old(t.rows), id) && t.rows == old(t.rows)[id := NewRow(d)]
    ensures TableValid(old(t.rows)) ==> TableValid(t.rows)
  {
    var v := ValidateCreate(d);
    if !v.Pass? {
      return Refusal(v);
    }
    var id := t.Insert(NewRow(d));
    resp := Created("User created successfully");
  }

  /** PUT /users/<id>: existence first, then validation, then the merged row is written. */
  method Update(t: Table<User>, id: int, d: Body) returns (resp: Response<User>)
    modifies t
    ensures id !in old(t.rows) ==> resp == NotFound("User not found") && t.rows == old(t.rows)
    ensures id in old(t.rows) && !ValidateUpdate(d).Pass? ==>
              resp == Refusal(ValidateUpdate(d)) && t.rows == old(t.rows)
    ensures id in old(t.rows) && ValidateUpdate(d).Pass? ==>
              resp == Ok("User updated successfully") && t.rows == old(t.rows)[id := Merge(old(t.rows)[id], d)]
    ensures TableValid(old(t.rows)) ==> TableValid(t.rows)
  {
    var row := t.Select(id);
    if row.None? {
      return NotFound("User not found");
    }
    var v := ValidateUpdate(d);
    if !v.Pass? {
      return Refusal(v);
    }
    t.Update(id, Merge(row.value, d));
    resp := Ok("User updated successfully");
  }
}
