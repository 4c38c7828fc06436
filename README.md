# Pet store REST service: the resource CRUD engine

A model of the resource handlers of a small Flask pet-store service
(`FakeAPI.py`). The service keeps five resource types (users, pets, orders,
categories, tags) in five SQLite tables. It answers `GET`, `POST`, `PUT` and
`DELETE` on each type. The model covers what the handlers decide:

- **Validation.** Every create and update handler checks the decoded JSON
  body with a series of guard clauses. The first clause that fires decides
  the 400 message. A clause that Python cannot evaluate on the value it gets
  (`len()` of a number, `'@' in` a number, `>` between a string and an int, a
  missing key) raises an exception, which Flask answers with a 500. The model
  keeps these exceptions as `ServerError(TypeError)` and
  `ServerError(KeyError)`.
- **Merge on update.** Each column takes the body's value if the body has the
  key, and otherwise keeps the stored value.
- **Table operations.** Create inserts under a fresh id. Get returns the row
  or 404. Update and delete look the row up first and answer 404 before any
  validation or write.

Module layout:

- `Json`: the body as `map<string, JValue>` and the Python semantics of the
  values. A bool is an int for `isinstance` and `>`, with True as 1.
- `Checks`: guard-clause verdicts, the first-missing-field search and the
  first-failure rule.
- `Storage`: the table as a class holding a `map<int, R>`. Ids follow SQLite's
  rowid rule: one more than the largest id, or 1 in an empty table. The model
  fixes the order of a full scan to increasing rowid (see Left out).
- `Resource`: the response datatype, plus the get, delete and list handlers.
  These are the same for all five types apart from the noun in the 404
  message.
- `Users`, `Pets`, `Orders`, `Named`, `Categories`, `Tags`: per-type
  validators, the INSERT row, the merge, and the create and update handlers.
  Each type also has a row invariant that its handlers keep.
- `Scenarios`: properties of request sequences, and concrete request
  sequences.

The rules are not uniform across the five types, and the model keeps each
handler's own behaviour:

- `create_pet` and `create_order` answer with one combined
  "Missing required fields: ..." message, not one naming the missing field.
- `update_pet` applies the category bound only when the body has the key
  `category` (see Findings).
- `update_order` does not check `pet_id`.
- `create_order` does not check `complete`, and it raises a KeyError when
  `complete` is absent.
- An ill-typed `user_status` or `category_id` raises a TypeError (500). It
  does not produce a validation message.

The tables' DDL disagrees with the INSERT/UPDATE statements in column names
and order (`userStatus`/`user_status`, `photoUrls`/`photo_urls`,
`shipDate`/`ship_date`). The positional `Class(*row)` and `row[i]` reads
follow the DDL order. The model keeps named columns as the INSERT/UPDATE
statements list them, and records these mismatches in comments on the row
datatypes.

## Model

| member | source | states |
|---|---|---|
| `Checks.RejectIfGreater` | FakeAPI.py:184-185 | `v > bound` passes exactly for an int or bool no greater than the bound; it raises a TypeError exactly for a non-number. |
| `Checks.RejectIfLonger` | FakeAPI.py:181-182 | `len(v) > bound` passes exactly for a string of at most `bound` characters; it raises a TypeError exactly for a non-string. |
| `Checks.FirstAbsent` | FakeAPI.py:167-170 | The required-field loop reports the first listed field absent from the body, and reports nothing exactly when all are present. |
| `Checks.FirstFailure` | FakeAPI.py:171-185 | Guard clauses run in order: the answer is the first non-passing verdict, and Pass exactly when every clause passes. |
| `Storage.FreshRowIdUnique` | FakeAPI.py:187-189 | The rowid rule (above every id, one past the largest, 1 when empty) names exactly one id. |
| `Storage.Table.constructor` | FakeAPI.py:74-83 | A newly created table is empty. |
| `Storage.Table.NextRowId` | FakeAPI.py:187-189 | The id SQLite assigns is positive, unused, larger than every id, and one past the largest id (1 in an empty table). |
| `Storage.Table.Insert` | FakeAPI.py:187-189 | INSERT adds exactly one row under the fresh rowid and changes no other row. |
| `Storage.Table.Select` | FakeAPI.py:156-158 | SELECT by id yields the stored row, or nothing when the id is absent. |
| `Storage.Table.Update` | FakeAPI.py:223-232 | UPDATE by id rewrites exactly that row; on an absent id it writes nothing. |
| `Storage.Table.Delete` | FakeAPI.py:245-246 | DELETE by id removes exactly that id and keeps every other row. |
| `Storage.Table.SelectAll` | FakeAPI.py:148-151 | A full scan yields every stored row exactly once, with its record; the model fixes the scan order to strictly increasing id. |
| `Resource.Get` | FakeAPI.py:154-160 | Every get handler (also lines 259-270, 354-365, 466-477, 544-555) returns the stored record for an existing id, else "<Noun> not found". |
| `Resource.Delete` | FakeAPI.py:236-247 | Every delete handler (also lines 331-342, 443-454, 521-532, 599-610) returns 404 and writes nothing on an absent id; otherwise it removes exactly that row and answers 204. |
| `Resource.List` | FakeAPI.py:146-151 | Every list handler (also lines 251-256, 346-351, 458-463, 536-541) returns each stored record once; the model fixes the order to increasing id. |
| `Users.ValidateUpdate` | FakeAPI.py:202-220 | update_user passes exactly when every present field obeys its rule, so an empty body passes. |
| `Users.ValidateUpdateInOrder` | FakeAPI.py:202-220 | The update checks run in the order email, phone, username, address, user_status, and the first failing one decides the answer. |
| `Users.ValidateCreate` | FakeAPI.py:166-185 | The first missing field among username, email, phone is reported as "Missing required field: f". With all three present, create gives the same answer as update, so the same checks run in the same order. It passes exactly when all are present and every field obeys its rule. |
| `Users.NewRow` | FakeAPI.py:186-189 | The inserted row of a validated body obeys the user row invariant; an absent address or user_status is stored as null. |
| `Users.Merge` | FakeAPI.py:222-231 | An empty body leaves the row unchanged; a body that passed update validation keeps the user row invariant. |
| `Users.MergeIdempotent` | FakeAPI.py:222-231 | Applying the same update body twice gives the row that one application gives. |
| `Users.MergeFullBody` | FakeAPI.py:223-231 | A body with every column replaces the whole row: the stored values no longer matter, and the result equals the row create would insert. |
| `Users.Create` | FakeAPI.py:163-190 | A refused body gives 400 or 500 and writes no row. An accepted body gives 201 and stores exactly one new row under the fresh rowid. The user row invariant holds afterwards. |
| `Users.Update` | FakeAPI.py:193-233 | An absent id gives 404 with no write, whatever the body. A refused body writes nothing. Otherwise exactly that row becomes the merge of the stored row and the body, and the row invariant is kept. |
| `Pets.ValidateCreate` | FakeAPI.py:276-284 | Any of name, category_id, status missing gives the combined message. Otherwise a category_id over 50 is rejected first, then a status over 50 characters. It passes exactly when both bounds hold. |
| `Pets.ValidateUpdate` | FakeAPI.py:308-313 | As written: the category_id bound applies only when the key "category" is present (a KeyError when category_id is then missing), and status is checked when present. |
| `Pets.ValidateUpdateIntended` | FakeAPI.py:308-313 | The corrected update check: the category_id bound applies whenever category_id is present. |
| `Pets.ValidateCreateInOrder` | FakeAPI.py:279-284 | With name, category_id and status present, create_pet's answer is the first failing clause: the category_id bound, then the status length. |
| `Pets.ValidateUpdateInOrder` | FakeAPI.py:308-313 | update_pet's answer as written is the first failing clause: the clause keyed on "category" (a KeyError without category_id), then the status length. |
| `Pets.ValidateUpdateIntendedInOrder` | FakeAPI.py:308-313 | The corrected check's answer is the first failing clause: the category_id bound when present, then the status length. |
| `Pets.NewRow` | FakeAPI.py:286-295 | A validated body inserts a row with category_id at most 50 and status at most 50 characters; photo_urls and tags default to "". |
| `Pets.Merge` | FakeAPI.py:317-326 | An empty body leaves the row unchanged. The status bound survives an accepted update. The full row invariant survives an update accepted by the corrected check. |
| `Pets.MergeIdempotent` | FakeAPI.py:317-326 | Applying the same update body twice gives the row that one application gives. |
| `Pets.UpdateAdmitsLargeCategory` | FakeAPI.py:309-310 | The body {"category_id": 51} passes the update check as written and breaks the row invariant; the corrected check rejects it. |
| `Pets.Create` | FakeAPI.py:273-296 | A refused body writes no row. An accepted body gives 201 and stores exactly one new row, and that row obeys the pet row invariant. |
| `Pets.Update` | FakeAPI.py:299-328 | An absent id gives 404 with no write. A refused body writes nothing. Otherwise exactly that row becomes the merge, and the status bound of every row is kept. |
| `Orders.ValidateCreate` | FakeAPI.py:371-388 | Any of the four required fields missing gives the combined message. It passes exactly when pet_id is an int at least 0, quantity an int above 0, and status at most 50 characters. The second "Ship date is required" check never fires. |
| `Orders.ValidateUpdate` | FakeAPI.py:412-427 | It passes exactly when a present quantity is a positive int, a present status has at most 50 characters, shipDate is present and a present complete is a bool. A body without shipDate is refused. |
| `Orders.ValidateCreateInOrder` | FakeAPI.py:375-388 | With the four required fields present, create_order's answer is the first failing clause among pet_id, quantity, status and the second shipDate check. |
| `Orders.ValidateUpdateInOrder` | FakeAPI.py:412-427 | update_order's answer is the first failing clause among quantity, status, shipDate and complete, in that order. |
| `Orders.EmptyUpdateRefused` | FakeAPI.py:420-422 | An empty update body is refused with "Ship date is required". |
| `Orders.NewRow` | FakeAPI.py:390-399 | The inserted row of a validated body obeys the order row invariant and stores the body's complete value unchecked. |
| `Orders.Merge` | FakeAPI.py:429-438 | An empty body leaves the row unchanged. An accepted update always stores the body's shipDate. Quantity and status bounds are kept. |
| `Orders.MergeIdempotent` | FakeAPI.py:429-438 | Applying the same update body twice gives the row that one application gives. |
| `Orders.UpdateSkipsPetIdCheck` | FakeAPI.py:412-438 | update_order accepts and stores pet_id -1, which create_order refuses. |
| `Orders.Create` | FakeAPI.py:368-400 | A refused body writes no row. An accepted body without complete raises a KeyError (500) and writes no row. Otherwise one new row is stored under the fresh rowid, and it obeys the order row invariant. |
| `Orders.Update` | FakeAPI.py:403-440 | An absent id gives 404 with no write. A refused body writes nothing. Otherwise exactly that row becomes the merge, and the quantity and status bounds of every row are kept. |
| `Named.ValidateCreate` | FakeAPI.py:483-489 | A missing name gives "Missing required field: name". With name present, create gives the same answer as update. It passes exactly when the name is a string of at most 50 characters. |
| `Named.ValidateUpdate` | FakeAPI.py:507-509 | The name is checked only when present, so an empty body passes; a name over 50 characters is rejected. |
| `Categories.Merge` | FakeAPI.py:511-516 | An empty body leaves the category unchanged; an accepted update keeps the name bound. |
| `Categories.Create` | FakeAPI.py:480-495 | A refused body writes no row. An accepted body stores exactly one new row with the body's name under the fresh rowid. Every stored name stays within 50 characters. |
| `Categories.Update` | FakeAPI.py:498-518 | An absent id gives 404 with no write, whatever the name. A refused body writes nothing. Otherwise exactly that row becomes the merge, and the name bound is kept. |
| `Tags.Merge` | FakeAPI.py:589-594 | An empty body leaves the tag unchanged; an accepted update keeps the name bound. |
| `Tags.Create` | FakeAPI.py:558-573 | A refused body writes no row. An accepted body stores exactly one new row with the body's name under the fresh rowid. Every stored name stays within 50 characters. |
| `Tags.Update` | FakeAPI.py:576-596 | An absent id gives 404 with no write, whatever the name. A refused body writes nothing. Otherwise exactly that row becomes the merge, and the name bound is kept. |
| `Scenarios.UserCreateThenGet` | FakeAPI.py:154-190 | After a successful user create, a get on the assigned id returns the inserted row. |
| `Scenarios.DeleteThenGet` | FakeAPI.py:236-247 | After a delete, a get on the same id answers 404 for every resource type. |
| `Scenarios.UserUpdateTwice` | FakeAPI.py:222-233 | Repeating a user update with the same body gives the same answer and the same table as one update. |
| `Scenarios.RefusalMessages` | FakeAPI.py:376-427 | Concrete bodies: pet_id -1 with quantity 0 gets "Invalid pet_id format"; an update with quantity 0 gets "Invalid quantity format"; an update with complete 1 gets "Invalid complete format"; update_pet with category and category_id 51 gets the category message. |

## Left out

- Flask routing, `request.json` and `jsonify`. Each handler takes the path id and the body as a map. A body that is not a JSON object, non-integer path ids and the response encoding are not modelled. get_user's 404 puts its message under the key "error" and the others use "message"; the model keeps only the message text.
- JSON floats, arrays and nested objects as field values are not modelled. In Python, `'@' in ["@"]` holds for a list, and `1.5` fails `isinstance(..., int)`.
- Users.ValidateCreate, Users.ValidateUpdate: a phone number's digits are the ASCII digits '0'-'9'. Python's `str.isdigit` also accepts other Unicode digit characters.
- Connection handling (`get_db`, `close_connection`) and `execute_query`'s cursor and commit. The table operations are atomic, so the read-then-write race between the existence check and the write in update and delete is not represented.
- Schema setup (`init_db`) and the SQLite engine's own behaviour. Column-name mismatches between the DDL and the queries, NOT NULL constraints, type affinity (a stored bool reads back as 0 or 1) and storage failures (500) are not modelled. Rows are stored as the INSERT/UPDATE column lists name them.
- The positional `Class(*row)` and `row[i]` mapping, whose order follows the DDL, is replaced by named columns.
- Resource.List, Storage.Table.SelectAll: the model fixes the order of `SELECT * FROM t` to increasing rowid. SQLite produces that order for these rowid tables, but a query without ORDER BY does not promise any order.
- `get_json_file` is a file read passed through unchanged.
- Python exceptions other than the TypeError and KeyError the guard clauses raise on wrongly typed or missing values are not modelled.

## Findings

| source | as written | input that shows it | evidently intended | confidence | as-written member | corrected member |
|---|---|---|---|---|---|---|
| FakeAPI.py:309 | update_pet tests `'category' in data` before applying the category_id bound. | On an existing pet, PUT with `{"category_id": 51}` passes validation; with the columns as the INSERT/UPDATE statements name them it answers 200 and stores 51, which create_pet refuses. (On a database built by `init_db` the UPDATE names `photo_urls`, which the DDL calls `photoUrls`, so SQLite rejects it with a 500 whatever the body.) `{"category": 1}` raises a KeyError (500). | Test `'category_id' in data`, the key the check reads and the UPDATE writes. | high; not executed | `Pets.UpdateAdmitsLargeCategory` | `Pets.ValidateUpdateIntended` |

`Pets.Update` keeps the check as written, because the handler is modelled as the code runs. The corrected check's property is proved in `Pets.Merge`: with the corrected check, an update keeps the full pet row invariant.
