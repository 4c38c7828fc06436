/** The /orders handlers: create_order, update_order and their validation and merge rules. */
module Orders {
  import opened Json
  import opened Checks
  import opened Storage
  import opened Resource

  /**
   * A stored order; the id is the table key. The columns follow the INSERT
   * and UPDATE statements (FakeAPI.py:391, 430), which name the ship date
   * column `ship_date`; the table's DDL (FakeAPI.py:100-108) calls it
   * `shipDate`. The request body always carries the ship date as "shipDate".
   */
  datatype Order = Order(petId: JValue, quantity: JValue, shipDate: JValue, status: JValue, complete: JValue)

  const Required: seq<string> := ["pet_id", "quantity", "status", "shipDate"]

  const MissingMessage := "Missing required fields: pet_id, quantity, status, shipDate"
  const PetIdMessage := "Invalid pet_id format"
  const QuantityMessage := "Invalid quantity format"
  const StatusMessage := "Status must be less than 50 characters long"
  const ShipDateMessage := "Ship date is required"
  const CompleteMessage := "Invalid complete format"

  /** `isinstance(pet_id, int) and pet_id >= 0`. */
  predicate ValidPetId(v: JValue) { IsInt(v) && IntValue(v) >= 0 }

  /** `isinstance(quantity, int) and quantity > 0`. */
  predicate ValidQuantity(v: JValue) { IsInt(v) && IntValue(v) > 0 }

  /** `len(status) > 50`. */
  function StatusRule(v: JValue): Verdict
  {
    RejectIfLonger(v, 50, StatusMessage)
  }

  /** `not isinstance(pet_id, int) or pet_id < 0`: short-circuits, so never raises. */
  function PetIdRule(v: JValue): Verdict
  {
    if ValidPetId(v) then Pass else Reject(PetIdMessage)
  }

  /** `not isinstance(quantity, int) or quantity <= 0`. */
  function QuantityRule(v: JValue): Verdict
  {
    if ValidQuantity(v) then Pass else Reject(QuantityMessage)
  }

  /** `'shipDate' not in data`. */
  function ShipDateRule(d: Body): Verdict
  {
    if "shipDate" in d then Pass else Reject(ShipDateMessage)
  }

  /** `not isinstance(complete, bool)`. */
  function CompleteRule(v: JValue): Verdict
  {
    if v.JBool? then Pass else Reject(CompleteMessage)
  }

  /** create_order's clauses after the required-field check, in source order. */
  function CreateRules(d: Body): seq<Verdict>
    requires "pet_id" in d && "quantity" in d && "status" in d
  {
    [PetIdRule(d["pet_id"]), QuantityRule(d["quantity"]), StatusRule(d["status"]), ShipDateRule(d)]
  }

  /** update_order's clauses, in source order. */
  function UpdateRules(d: Body): seq<Verdict>
  {
    [IfPresent(d, "quantity", QuantityRule), IfPresent(d, "status", StatusRule), ShipDateRule(d),
     IfPresent(d, "complete", CompleteRule)]
  }

  /** What create_order guarantees of every row it writes. */
  predicate RowValid(o: Order)
  {
    ValidPetId(o.petId) && ValidQuantity(o.quantity) && StrAtMost(o.status, 50)
  }

  /** The part of RowValid that update_order keeps (it does not re-check pet_id). */
  predicate QuantityStatusValid(o: Order)
  {
    ValidQuantity(o.quantity) && StrAtMost(o.status, 50)
  }

  predicate TableValid(rows: map<int, Order>)
  {
    forall id :: id in rows ==> QuantityStatusValid(rows[id])
  }

  /**
   * create_order's checks: the four required fields, pet_id, quantity,
   * status, and a second shipDate check that the first one makes unreachable.
   */
  function ValidateCreate(d: Body): (v: Verdict)
    ensures !HasAll(d, Required) ==> v == Reject(MissingMessage)
    ensures v.Pass? <==> && "pet_id" in d && "quantity" in d && "status" in d && "shipDate" in d
                         && ValidPetId(d["pet_id"]) && ValidQuantity(d["quantity"]) && StrAtMost(d["status"], 50)
    ensures v != Reject(ShipDateMessage)
  {
    if "pet_id" !in d || "quantity" !in d || "status" !in d || "shipDate" !in d then
      assert !HasAll(d, Required) by {
        assert Required[0] == "pet_id" && Required[1] == "quantity";
        assert Required[2] == "status" && Required[3] == "shipDate";
      }
      Reject(MissingMessage)
    else
      assert HasAll(d, Required);
      if !IsInt(d["pet_id"]) || IntValue(d["pet_id"]) < 0 then Reject(PetIdMessage)
      else if !IsInt(d["quantity"]) || IntValue(d["quantity"]) <= 0 then Reject(QuantityMessage)
      else if !StatusRule(d["status"]).Pass? then StatusRule(d["status"])
      else if "shipDate" !in d then Reject(ShipDateMessage)
      else Pass
  }

  /**
   * update_order's checks: quantity and status when present, shipDate always
   * required, complete a bool when present. pet_id is not checked.
   */
  function ValidateUpdate(d: Body): (v: Verdict)
    ensures v.Pass? <==> && ("quantity" in d ==> ValidQuantity(d["quantity"]))
                         && ("status" in d ==> StrAtMost(d["status"], 50))
                         && "shipDate" in d
                         && ("complete" in d ==> d["complete"].JBool?)
    ensures "shipDate" !in d && !("quantity" in d) && !("status" in d) ==> v == Reject(ShipDateMessage)
  {
    if "quantity" in d && (!IsInt(d["quantity"]) || IntValue(d["quantity"]) <= 0) then Reject(QuantityMessage)
    else if "status" in d && !StatusRule(d["status"]).Pass? then StatusRule(d["status"])
    else if "shipDate" !in d then Reject(ShipDateMessage)
    else if "complete" in d && !d["complete"].JBool? then Reject(CompleteMessage)
    else Pass
  }

  /**
   * Once the required fields are present, create_order's answer is the first
   * failing clause among pet_id, quantity, status and the second shipDate check.
   */
  lemma ValidateCreateInOrder(d: Body)
    requires "pet_id" in d && "quantity" in d && "status" in d && "shipDate" in d
    ensures ValidateCreate(d) == FirstFailure(CreateRules(d))
  {
    var r := CreateRules(d);
    assert r[1..][0] == r[1] && r[2..][0] == r[2] && r[3..][0] == r[3];
    assert r[1..][1..] == r[2..] && r[2..][1..] == r[3..] && r[3..][1..] == [];
  }

  /** update_order's answer is the first failing clause among quantity, status, shipDate and complete. */
  lemma ValidateUpdateInOrder(d: Body)
    ensures ValidateUpdate(d) == FirstFailure(UpdateRules(d))
  {
    var r := UpdateRules(d);
    assert r[1..][0] == r[1] && r[2..][0] == r[2] && r[3..][0] == r[3];
    assert r[1..][1..] == r[2..] && r[2..][1..] == r[3..] && r[3..][1..] == [];
  }

  /** An empty update body is refused: shipDate is required on every update. */
  lemma EmptyUpdateRefused()
    ensures ValidateUpdate(map[]) == Reject(ShipDateMessage)
  {
  }

  /** The INSERT's values; `complete` is read without a default. */
  function NewRow(d: Body): (o: Order)
    requires HasAll(d, Required) && "complete" in d
    ensures ValidateCreate(d).Pass? ==> RowValid(o)
    ensures o.complete == d["complete"]
  {
    assert "pet_id" in d && "quantity" in d && "status" in d && "shipDate" in d by {
      assert Required[0] in d && Required[1] in d && Required[2] in d && Required[3] in d;
    }
    Order(d["pet_id"], d["quantity"], d["shipDate"], d["status"], d["complete"])
  }

  /** The UPDATE's values: a column takes the body's value when present, else keeps the stored one. */
  function Merge(o: Order, d: Body): (r: Order)
    ensures d == map[] ==> r == o
    ensures ValidateUpdate(d).Pass? ==> r.shipDate == d["shipDate"]
    ensures QuantityStatusValid(o) && ValidateUpdate(d).Pass? ==> QuantityStatusValid(r)
  {
    Order(GetOr(d, "pet_id", o.petId), GetOr(d, "quantity", o.quantity), GetOr(d, "shipDate", o.shipDate),
          GetOr(d, "status", o.status), GetOr(d, "complete", o.complete))
  }

  /** Applying the same body a second time changes nothing more. */
  lemma MergeIdempotent(o: Order, d: Body)
    ensures Merge(Merge(o, d), d) == Merge(o, d)
  {
  }

  /** update_order accepts a pet_id that create_order refuses, and stores it. */
  lemma UpdateSkipsPetIdCheck(o: Order)
    ensures var d := map["shipDate" := JStr("2024-01-01"), "pet_id" := JInt(-1)];
            && ValidateUpdate(d) == Pass
            && !ValidPetId(Merge(o, d).petId)
  {
  }

  /** POST /orders: validation, then the INSERT, whose missing "complete" raises a KeyError. */
  method Create(t: Table<Order>, d: Body) returns (resp: Response<Order>)
    requires t.Valid()
    modifies t
    ensures t.Valid()
    ensures !ValidateCreate(d).Pass? ==> resp == Refusal(ValidateCreate(d)) && t.rows == old(t.rows)
    ensures ValidateCreate(d).Pass? && "complete" !in d ==> resp == ServerError(KeyError) && t.rows == old(t.rows)
    ensures ValidateCreate(d).Pass? && "complete" in d ==>
              && resp == Created("Order created successfully")
              && exists id :: FreshRowId(old(t.rows), id) && t.rows == old(t.rows)[id := NewRow(d)]
    ensures resp.Created? ==> forall id :: id in t.rows && id !in old(t.rows) ==> RowValid(t.rows[id])
    ensures TableValid(old(t.rows)) ==> TableValid(t.rows)
  {
    var v := ValidateCreate(d);
    if !v.Pass? {
      return Refusal(v);
    }
    if "complete" !in d {
      return ServerError(KeyError);
    }
    var id := t.Insert(NewRow(d));
    resp := Created("Order created successfully");
  }

  /** PUT /orders/<id>: existence first, then validation, then the merged row is written. */
  method Update(t: Table<Order>, id: int, d: Body) returns (resp: Response<Order>)
    modifies t
    ensures id !in old(t.rows) ==> resp == NotFound("Order not found") && t.rows == old(t.rows)
    ensures id in old(t.rows) && !ValidateUpdate(d).Pass? ==>
              resp == Refusal(ValidateUpdate(d)) && t.rows == old(t.rows)
    ensures id in old(t.rows) && ValidateUpdate(d).Pass? ==>
              resp == Ok("Order updated successfully") && t.rows == old(t.rows)[id := Merge(old(t.rows)[id], d)]
    ensures TableValid(old(t.rows)) ==> TableValid(t.rows)
  {
    var row := t.Select(id);
    if row.None? {
      return NotFound("Order not found");
    }
    var v := ValidateUpdate(d);
    if !v.Pass? {
      return Refusal(v);
    }
    t.Update(id, Merge(row.value, d));
    resp := Ok("Order updated successfully");
  }
}
