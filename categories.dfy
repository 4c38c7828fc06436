/** The /categories handlers: create_category and update_category. */
module Categories {
  import opened Json
  import opened Checks
  import opened Storage
  import opened Resource
  import Named

  /** A stored category; the id is the table key. */
  datatype Category = Category(name: JValue)

  predicate TableValid(rows: map<int, Category>)
  {
    forall id :: id in rows ==> Named.ValidName(rows[id].name)
  }

  /** The UPDATE's value: the body's name when present, else the stored one. */
  function Merge(category: Category, d: Body): (r: Category)
    ensures d == map[] ==> r == category
    ensures Named.ValidName(category.name) && Named.ValidateUpdate(d).Pass? ==> Named.ValidName(r.name)
  {
    Category(GetOr(d, "name", category.name))
  }

  /** POST /categories. */
  method Create(t: Table<Category>, d: Body) returns (resp: Response<Category>)
    requires t.Valid()
    modifies t
    ensures t.Valid()
    ensures !Named.ValidateCreate(d).Pass? ==> resp == Refusal(Named.ValidateCreate(d)) && t.rows == old(t.rows)
    ensures Named.ValidateCreate(d).Pass? ==>
              && resp == Created("Category created successfully")
              && exists id :: FreshRowId(old(t.rows), id) && t.rows == old(t.rows)[id := Category(d["name"])]
    ensures TableValid(old(t.rows)) ==> TableValid(t.rows)
  {
    var v := Named.ValidateCreate(d);
    if !v.Pass? {
      return Refusal(v);
    }
    var id := t.Insert(Category(d["name"]));
    resp := Created("Category created successfully");
  }

  /** PUT /categories/<id>: existence first, then validation, then the merged row is written. */
  method Update(t: Table<Category>, id: int, d: Body) returns (resp: Response<Category>)
    modifies t
    ensures id !in old(t.rows) ==> resp == NotFound("Category not found") && t.rows == old(t.rows)
    ensures id in old(t.rows) && !Named.ValidateUpdate(d).Pass? ==>
              resp == Refusal(Named.ValidateUpdate(d)) && t.rows == old(t.rows)
    ensures id in old(t.rows) && Named.ValidateUpdate(d).Pass? ==>
              resp == Ok("Category updated successfully") && t.rows == old(t.rows)[id := Merge(old(t.rows)[id], d)]
    ensures TableValid(old(t.rows)) ==> TableValid(t.rows)
  {
    var row := t.Select(id);
    if row.None? {
      return NotFound("Category not found");
    }
    var v := Named.ValidateUpdate(d);
    if !v.Pass? {
      return Refusal(v);
    }
    t.Update(id, Merge(row.value, d));
    resp := Ok("Category updated successfully");
  }
}
