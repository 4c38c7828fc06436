/**
 * What the five resource types share: the HTTP answer of a handler, and the
 * get and delete handlers, which differ between the types only in the noun of
 * their not-found message.
 */
module Resource {
  import opened Checks
  import opened Storage

  /** A handler's answer; the comment gives the HTTP status. */
  datatype Response<R> =
    | Created(message: string)      // 201
    | Ok(message: string)           // 200, a confirmation
    | Found(entry: Entry<R>)        // 200, the record
    | NoContent                     // 204
    | NotFound(message: string)     // 404
    | BadRequest(message: string)   // 400
    | ServerError(error: PyError)   // 500, an uncaught exception

  /** The answer to a body a validator did not pass. */
  function Refusal<R>(v: Verdict): Response<R>
    requires !v.Pass?
  {
    match v
    case Reject(message) => BadRequest(message)
    case Fault(error) => ServerError(error)
  }

  /**
   * get_user, get_pet, get_order, get_category, get_tag: the stored record,
   * or "<Noun> not found". (get_user puts the message under the key "error",
   * the others under "message".)
   */
  method Get<R>(t: Table<R>, noun: string, id: int) returns (resp: Response<R>)
    ensures id in t.rows ==> resp == Found(Entry(id, t.rows[id]))
    ensures id !in t.rows ==> resp == NotFound(noun + " not found")
  {
    var row := t.Select(id);
    if row.None? {
      return NotFound(noun + " not found");
    }
    resp := Found(Entry(id, row.value));
  }

  /**
   * delete_user, delete_pet, delete_order, delete_category, delete_tag: an
   * absent id is a 404 and nothing is written; otherwise exactly that row is
   * removed and the answer is 204.
   */
  method Delete<R>(t: Table<R>, noun: string, id: int) returns (resp: Response<R>)
    requires t.Valid()
    modifies t
    ensures t.Valid()
    ensures id !in old(t.rows) ==> resp == NotFound(noun + " not found") && t.rows == old(t.rows)
    ensures id in old(t.rows) ==> resp == NoContent && t.rows == old(t.rows) - {id}
  {
    var row := t.Select(id);
    if row.None? {
      return NotFound(noun + " not found");
    }
    t.Delete(id);
    resp := NoContent;
  }

  /** get_users, get_pets, get_orders, get_categories, get_tags: every stored record, in the scan's rowid order. */
  method List<R>(t: Table<R>) returns (es: seq<Entry<R>>)
    ensures forall k :: 0 <= k < |es| ==> es[k].id in t.rows && es[k].record == t.rows[es[k].id]
    ensures forall j, k :: 0 <= j < k < |es| ==> es[j].id < es[k].id
    ensures forall id :: id in t.rows ==> exists k :: 0 <= k < |es| && es[k] == Entry(id, t.rows[id])
  {
    es := t.SelectAll();
    forall id | id in t.rows
      ensures exists k :: 0 <= k < |es| && es[k] == Entry(id, t.rows[id])
    {
      var k :| 0 <= k < |es| && es[k].id == id;
      assert es[k] == Entry(id, t.rows[id]);
    }
  }
}
