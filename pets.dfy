/** The /pets handlers: create_pet, update_pet and their validation and merge rules. */
module Pets {
  import opened Json
  import opened Checks
  import opened Storage
  import opened Resource

  /**
   * A stored pet; the id is the table key. The columns follow the INSERT and
   * UPDATE statements (FakeAPI.py:287, 318). The table's DDL (FakeAPI.py:86-96)
   * names the photo column `photoUrls` and puts `status` before it, and the
   * positional reads `pet[0][3]`..`pet[0][5]` and `Pet(*row)` follow the DDL
   * order; the model keeps the columns by name.
   */
  datatype Pet = Pet(name: JValue, categoryId: JValue, photoUrls: JValue, tags: JValue, status: JValue)

  const MissingMessage := "Missing required fields: name, category, status"
  const CategoryMessage := "Category must be less than 50"
  const StatusMessage := "Status must be less than 50 characters long"

  /** `category_id > 50`. */
  function CategoryRule(v: JValue): Verdict
  {
    RejectIfGreater(v, 50, CategoryMessage)
  }

  /** `len(status) > 50`. */
  function StatusRule(v: JValue): Verdict
  {
    RejectIfLonger(v, 50, StatusMessage)
  }

  /**
   * `'category' in data and data['category_id'] > 50`, as written: the key
   * tested is "category", and reading the absent "category_id" raises a KeyError.
   */
  function CategoryClause(d: Body): Verdict
  {
    if "category" !in d then Pass
    else if "category_id" !in d then Fault(KeyError)
    else CategoryRule(d["category_id"])
  }

  /** create_pet's clauses after the required-field check, in source order. */
  function CreateRules(d: Body): seq<Verdict>
    requires "category_id" in d && "status" in d
  {
    [CategoryRule(d["category_id"]), StatusRule(d["status"])]
  }

  /** update_pet's clauses as written, in source order. */
  function UpdateRules(d: Body): seq<Verdict>
  {
    [CategoryClause(d), IfPresent(d, "status", StatusRule)]
  }

  /** update_pet's clauses with the bound keyed on "category_id". */
  function UpdateRulesIntended(d: Body): seq<Verdict>
  {
    [IfPresent(d, "category_id", CategoryRule), IfPresent(d, "status", StatusRule)]
  }

  /** What create_pet guarantees of every row it writes. */
  predicate RowValid(p: Pet)
  {
    IntAtMost(p.categoryId, 50) && StrAtMost(p.status, 50)
  }

  /** The part of RowValid that update_pet keeps. */
  predicate StatusesValid(rows: map<int, Pet>)
  {
    forall id :: id in rows ==> StrAtMost(rows[id].status, 50)
  }

  /** create_pet's checks: the three required fields, then category_id, then status. */
  function ValidateCreate(d: Body): (v: Verdict)
    ensures !("name" in d && "category_id" in d && "status" in d) ==> v == Reject(MissingMessage)
    ensures v.Pass? <==> && "name" in d && "category_id" in d && "status" in d
                         && IntAtMost(d["category_id"], 50) && StrAtMost(d["status"], 50)
    ensures "name" in d && "category_id" in d && "status" in d && !IntAtMost(d["category_id"], 50) ==>
              v == CategoryRule(d["category_id"])
  {
    if "name" !in d || "category_id" !in d || "status" !in d then Reject(MissingMessage)
    else if !CategoryRule(d["category_id"]).Pass? then CategoryRule(d["category_id"])
    else StatusRule(d["status"])
  }

  /**
   * update_pet's checks as written: the category_id bound is applied when the
   * body has the key "category" (and then reads "category_id", a KeyError
   * when that key is absent); status is checked when present.
   */
  function ValidateUpdate(d: Body): (v: Verdict)
    ensures v.Pass? <==> && ("category" in d ==> "category_id" in d && IntAtMost(d["category_id"], 50))
                         && ("status" in d ==> StrAtMost(d["status"], 50))
    ensures "category" in d && "category_id" !in d ==> v == Fault(KeyError)
    ensures "category" !in d ==> v == IfPresent(d, "status", StatusRule)
  {
    if !CategoryClause(d).Pass? then CategoryClause(d)
    else IfPresent(d, "status", StatusRule)
  }

  /** update_pet's checks with the bound keyed on "category_id", the field it reads and writes. */
  function ValidateUpdateIntended(d: Body): (v: Verdict)
    ensures v.Pass? <==> && ("category_id" in d ==> IntAtMost(d["category_id"], 50))
                         && ("status" in d ==> StrAtMost(d["status"], 50))
    ensures "category_id" in d && d["category_id"] == JInt(51) ==> v == Reject(CategoryMessage)
  {
    if "category_id" in d && !CategoryRule(d["category_id"]).Pass? then CategoryRule(d["category_id"])
    else IfPresent(d, "status", StatusRule)
  }

  /** Once the required fields are present, create_pet's answer is the first failing clause: category_id, then status. */
  lemma ValidateCreateInOrder(d: Body)
    requires "name" in d && "category_id" in d && "status" in d
    ensures ValidateCreate(d) == FirstFailure(CreateRules(d))
  {
  }

  /** update_pet's answer as written is the first failing clause: the "category" clause, then status. */
  lemma ValidateUpdateInOrder(d: Body)
    ensures ValidateUpdate(d) == FirstFailure(UpdateRules(d))
  {
  }

  /** The corrected check's answer is the first failing clause: category_id when present, then status. */
  lemma ValidateUpdateIntendedInOrder(d: Body)
    ensures ValidateUpdateIntended(d) == FirstFailure(UpdateRulesIntended(d))
  {
  }

  /** The INSERT's values: photo_urls and tags default to the empty string. */
  function NewRow(d: Body): (p: Pet)
    requires "name" in d && "category_id" in d && "status" in d
    ensures ValidateCreate(d).Pass? ==> RowValid(p)
    ensures "photo_urls" !in d ==> p.photoUrls == JStr("")
    ensures "tags" !in d ==> p.tags == JStr("")
  {
    Pet(d["name"], d["category_id"], GetOr(d, "photo_urls", JStr("")), GetOr(d, "tags", JStr("")), d["status"])
  }

  /** The UPDATE's values: a column takes the body's value when present, else keeps the stored one. */
  function Merge(p: Pet, d: Body): (r: Pet)
    ensures d == map[] ==> r == p
    ensures StrAtMost(p.status, 50) && ValidateUpdate(d).Pass? ==> StrAtMost(r.status, 50)
    ensures RowValid(p) && ValidateUpdateIntended(d).Pass? ==> RowValid(r)
  {
    Pet(GetOr(d, "name", p.name), GetOr(d, "category_id", p.categoryId), GetOr(d, "photo_urls", p.photoUrls),
        GetOr(d, "tags", p.tags), GetOr(d, "status", p.status))
  }

  /** Applying the same body a second time changes nothing more. */
  lemma MergeIdempotent(p: Pet, d: Body)
    ensures Merge(Merge(p, d), d) == Merge(p, d)
  {
  }

  /**
   * As written, update_pet lets a category_id that create_pet refuses reach a
   * stored row: the body {"category_id": 51} passes and the merged row breaks
   * RowValid, while the intended check refuses it.
   */
  lemma UpdateAdmitsLargeCategory(p: Pet)
    requires RowValid(p)
    ensures var d := map["category_id" := JInt(51)];
            && ValidateUpdate(d) == Pass
            && !RowValid(Merge(p, d))
            && ValidateUpdateIntended(d) == Reject(CategoryMessage)
  {
  }

  /** POST /pets. */
  method Create(t: Table<Pet>, d: Body) returns (resp: Response<Pet>)
    requires t.Valid()
    modifies t
    ensures t.Valid()
    ensures !ValidateCreate(d).Pass? ==> resp == Refusal(ValidateCreate(d)) && t.rows == old(t.rows)
    ensures ValidateCreate(d).Pass? ==>
              && resp == Created("Pet created successfully")
              && exists id :: FreshRowId(old(t.rows), id) && t.rows == old(t.rows)[id := NewRow(d)]
    ensures ValidateCreate(d).Pass? ==> forall id :: id in t.rows && id !in old(t.rows) ==> RowValid(t.rows[id])
    ensures StatusesValid(old(t.rows)) ==> StatusesValid(t.rows)
  {
    var v := ValidateCreate(d);
    if !v.Pass? {
      return Refusal(v);
    }
    var id := t.Insert(NewRow(d));
    resp := Created("Pet created successfully");
  }

  /** PUT /pets/<id>: existence first, then validation (as written), then the merged row is written. */
  method Update(t: Table<Pet>, id: int, d: Body) returns (resp: Response<Pet>)
    modifies t
    ensures id !in old(t.rows) ==> resp == NotFound("Pet not found") && t.rows == old(t.rows)
    ensures id in old(t.rows) && !ValidateUpdate(d).Pass? ==>
              resp == Refusal(ValidateUpdate(d)) && t.rows == old(t.rows)
    ensures id in old(t.rows) && ValidateUpdate(d).Pass? ==>
              resp == Ok("Pet updated successfully") && t.rows == old(t.rows)[id := Merge(old(t.rows)[id], d)]
    ensures StatusesValid(old(t.rows)) ==> StatusesValid(t.rows)
  {
    var row := t.Select(id);
    if row.None? {
      return NotFound("Pet not found");
    }
    var v := ValidateUpdate(d);
    if !v.Pass? {
      return Refusal(v);
    }
    t.Update(id, Merge(row.value, d));
    resp := Ok("Pet updated successfully");
  }
}
