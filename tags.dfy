/** The /tags handlers: create_tag and update_tag. */
module Tags {
  import opened Json
  import opened Checks
  import opened Storage
  import opened Resource
  import Named

  /** A stored tag; the id is the table key. */
  datatype Tag = Tag(name: JValue)

  predicate TableValid(rows: map<int, Tag>)
  {
    forall id :: id in rows ==> Named.ValidName(rows[id].name)
  }

  /** The UPDATE's value: the body's name when present, else the stored one. */
  function Merge(tag: Tag, d: Body): (r: Tag)
    ensures d == map[] ==> r == tag
    ensures Named.ValidName(tag.name) && Named.ValidateUpdate(d).Pass? ==> Named.ValidName(r.name)
  {
    Tag(GetOr(d, "name", tag.name))
  }

  /** POST /tags. */
  method Create(t: Table<Tag>, d: Body) returns (resp: Response<Tag>)
    requires t.Valid()
    modifies t
    ensures t.Valid()
    ensures !Named.ValidateCreate(d).Pass? ==> resp == Refusal(Named.ValidateCreate(d)) && t.rows == old(t.rows)
    ensures Named.ValidateCreate(d).Pass? ==>
              && resp == Created("Tag created successfully")
              && exists id :: FreshRowId(old(t.rows), id) && t.rows == old(t.rows)[id := Tag(d["name"])]
    ensures TableValid(old(t.rows)) ==> TableValid(t.rows)
  {
    var v := Named.ValidateCreate(d);
    if !v.Pass? {
      return Refusal(v);
    }
    var id := t.Insert(Tag(d["name"]));
    resp := Created("Tag created successfully");
  }

  /** PUT /tags/<id>: existence first, then validation, then the merged row is written. */
  method Update(t: Table<Tag>, id: int, d: Body) returns (resp: Response<Tag>)
    modifies t
    ensures id !in old(t.rows) ==> resp == NotFound("Tag not found") && t.rows == old(t.rows)
    ensures id in old(t.rows) && !Named.ValidateUpdate(d).Pass? ==>
              resp == Refusal(Named.ValidateUpdate(d)) && t.rows == old(t.rows)
    ensures id in old(t.rows) && Named.ValidateUpdate(d).Pass? ==>
              resp == Ok("Tag updated successfully") && t.rows == old(t.rows)[id := Merge(old(t.rows)[id], d)]
    ensures TableValid(old(t.rows)) ==> TableValid(t.rows)
  {
    var row := t.Select(id);
    if row.None? {
      return NotFound("Tag not found");
    }
    var v := Named.ValidateUpdate(d);
    if !v.Pass? {
      return Refusal(v);
    }
    t.Update(id, Merge(row.value, d));
    resp := Ok("Tag updated successfully");
  }
}
