/**
 * Properties of sequences of requests, and a few concrete request sequences,
 * checked against the handlers' contracts.
 */
module Scenarios {
  import opened Json
  import opened Checks
  import opened Storage
  import opened Resource
  import Users
  import Pets
  import Orders
  import Categories
  import Tags
  import Named

  /** After a successful POST /users, GET on the id the store assigned returns the body's row. */
  method UserCreateThenGet(t: Table<Users.User>, d: Body) returns (id: int, created: Response<Users.User>, fetched: Response<Users.User>)
    requires t.Valid()
    modifies t
    ensures created.Created? ==> Users.ValidateCreate(d).Pass? && fetched == Found(Entry(id, Users.NewRow(d)))
  {
    id := t.NextRowId();
    created := Users.Create(t, d);
    if created.Created? {
      ghost var used :| FreshRowId(old(t.rows), used) && t.rows == old(t.rows)[used := Users.NewRow(d)];
      FreshRowIdUnique(old(t.rows), id, used);
    }
    fetched := Get(t, "User", id);
  }

  /** DELETE followed by GET on the same id answers 404, whatever was stored. */
  method DeleteThenGet<R>(t: Table<R>, noun: string, id: int) returns (deleted: Response<R>, fetched: Response<R>)
    requires t.Valid()
    modifies t
    ensures deleted == NoContent || deleted == NotFound(noun + " not found")
    ensures fetched == NotFound(noun + " not found")
  {
    deleted := Delete(t, noun, id);
    fetched := Get(t, noun, id);
  }

  /** A PUT /users/<id> repeated with the same body leaves the same table as one PUT. */
  method UserUpdateTwice(t: Table<Users.User>, id: int, d: Body) returns (first: Response<Users.User>, second: Response<Users.User>)
    modifies t
    ensures second == first
    ensures id in old(t.rows) && Users.ValidateUpdate(d).Pass? ==>
              t.rows == old(t.rows)[id := Users.Merge(old(t.rows)[id], d)]
    ensures !(id in old(t.rows) && Users.ValidateUpdate(d).Pass?) ==> t.rows == old(t.rows)
  {
    first := Users.Update(t, id, d);
    ghost var once := t.rows;
    second := Users.Update(t, id, d);
    if id in old(t.rows) && Users.ValidateUpdate(d).Pass? {
      Users.MergeIdempotent(old(t.rows)[id], d);
      assert t.rows == once;
    }
  }

  /** POST /users with the three required fields, then GET /users/1. */
  method AliceIsStored()
  {
    var t := new Table<Users.User>();
    var d := map["username" := JStr("alice123"), "email" := JStr("a@b.com"), "phone" := JStr("1234567890")];
    assert "a@b.com"[1] == '@';
    assert Users.ValidateCreate(d) == Pass;
    var created := Users.Create(t, d);
    assert created == Created("User created successfully");
    var fetched := Get(t, "User", 1);
    assert fetched == Found(Entry(1, Users.User(JStr("alice123"), JStr("a@b.com"), JStr("1234567890"), JNull, JNull)));
  }

  /** POST /pets with category_id 51 is refused and stores nothing. */
  method LargeCategoryRefused()
  {
    var t := new Table<Pets.Pet>();
    var d := map["name" := JStr("Rex"), "category_id" := JInt(51), "status" := JStr("available")];
    var created := Pets.Create(t, d);
    assert created == BadRequest("Category must be less than 50");
    assert t.rows == map[];
  }

  /** PUT /categories/1 on an empty table is a 404 even with a name of 60 characters. */
  method UpdateOfMissingCategory(name: string)
    requires |name| == 60
  {
    var t := new Table<Categories.Category>();
    var updated := Categories.Update(t, 1, map["name" := JStr(name)]);
    assert updated == NotFound("Category not found");
    assert t.rows == map[];
  }

  /** Three tags are created with ids 1, 2, 3; DELETE /tags/3 answers 204 and GET /tags/3 then 404. */
  method ThirdTagDeleted()
  {
    var t := new Table<Tags.Tag>();
    var d := map["name" := JStr("friendly")];
    var tag := Tags.Tag(JStr("friendly"));
    assert Named.ValidateCreate(d).Pass?;
    var r := Tags.Create(t, d);
    assert t.rows == map[1 := tag];
    ghost var before := t.rows;
    r := Tags.Create(t, d);
    ghost var second :| FreshRowId(before, second) && t.rows == before[second := tag];
    assert FreshRowId(before, 2) by { assert 1 in before; }
    FreshRowIdUnique(before, second, 2);
    assert t.rows == map[1 := tag, 2 := tag];
    before := t.rows;
    r := Tags.Create(t, d);
    ghost var third :| FreshRowId(before, third) && t.rows == before[third := tag];
    assert FreshRowId(before, 3) by { assert 2 in before; }
    FreshRowIdUnique(before, third, 3);
    assert 3 in t.rows;
    var deleted := Delete(t, "Tag", 3);
    assert deleted == NoContent;
    var fetched := Get(t, "Tag", 3);
    assert fetched == NotFound("Tag not found");
  }

  /** Which clause's message a refused order or pet body receives. */
  lemma RefusalMessages()
    ensures Orders.ValidateCreate(map["pet_id" := JInt(-1), "quantity" := JInt(0), "status" := JStr("x"), "shipDate" := JStr("d")])
            == Reject(Orders.PetIdMessage)
    ensures Orders.ValidateUpdate(map["quantity" := JInt(0)]) == Reject(Orders.QuantityMessage)
    ensures Orders.ValidateUpdate(map["shipDate" := JStr("d"), "complete" := JInt(1)]) == Reject(Orders.CompleteMessage)
    ensures Pets.ValidateUpdate(map["category" := JInt(1), "category_id" := JInt(51)]) == Reject(Pets.CategoryMessage)
  {
  }
}
